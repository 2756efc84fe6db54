/** The search of implicit.c for a pattern rule to make a file. */
module ImplicitSearch {
  import opened Wrappers
  import opened PatternRules
  import opened Derivations

  /** The fields of a `struct file` that the search reads or sets; `cmds` is the rule they are of. */
  datatype Entry = Entry(deps: seq<string>, cmds: Option<nat>, stem: Option<string>, isTarget: bool)

  const BLANK := Entry([], None, None, false)

  /** A prerequisite found for a rule; `made` is its intermediate file. */
  datatype Idep = Idep(name: string, made: Option<Entry>)

  datatype Verdict = Applies | Fails | Impossible

  // ----- names

  /** The stem of a candidate, by position. */
  function StemIn(p: Pattern, dir: string, name: string): string {
    var d := |DirPart(p, dir)| + |p.prefix|;
    if d + |p.suffix| <= |name| then name[d..|name| - |p.suffix|] else ""
  }

  function NamesFor(w: World, c: Candidate, name: string, dir: string): seq<string>
    requires c.rule < |w.rules| && c.pat < |w.rules[c.rule].targets|
  {
    var p := w.rules[c.rule].targets[c.pat];
    PrereqNames(w, w.rules[c.rule].deps, StemIn(p, dir, name), DirPart(p, dir))
  }

  /** One word of the prerequisites. */
  method ExpandWord(w: World, word: string, stem: string, dir: string) returns (names: seq<string>)
    ensures names == WordNames(w, word, stem, dir)
  {
    var p2 := 0;
    while p2 < |word| && word[p2] != '%'
      invariant p2 <= |word| && '%' !in word[..p2]
    {
      p2 := p2 + 1;
    }
    PercentIs(word, p2);
    if p2 < |word| {
      names := w.glob(word[..p2] + stem + word[p2 + 1..]);
      names := AddDir(names, dir);
    } else {
      names := w.glob(word);
    }
  }

  method AddDir(bare: seq<string>, dir: string) returns (names: seq<string>)
    ensures names == Prefixed(dir, bare)
  {
    names := bare;
    var d := 0;
    while d < |names|
      invariant d <= |names| == |bare|
      invariant forall k :: 0 <= k < d ==> names[k] == dir + bare[k]
      invariant forall k :: d <= k < |bare| ==> names[k] == bare[k]
    {
      names := names[d := dir + names[d]];
      d := d + 1;
    }
  }

  /** The prerequisites of a rule, word by word. */
  method ExpandPrereqs(w: World, words: seq<string>, stem: string, dir: string) returns (names: seq<string>)
    ensures names == PrereqNames(w, words, stem, dir)
  {
    hide WordNames;
    names := [];
    var k := 0;
    while k < |words|
      invariant k <= |words|
      invariant names + PrereqNames(w, words[k..], stem, dir) == PrereqNames(w, words, stem, dir)
    {
      var found := ExpandWord(w, words[k], stem, dir);
      assert words[k..][1..] == words[k + 1..];
      assert names + found + PrereqNames(w, words[k + 1..], stem, dir) == names + PrereqNames(w, words[k..], stem, dir);
      names := names + found;
      k := k + 1;
    }
  }

  // ----- rules in use, and readiness

  function Free(inUse: seq<bool>): nat {
    if inUse == [] then 0 else (if inUse[0] then 0 else 1) + Free(inUse[1..])
  }

  lemma {:induction false} FreeDrops(inUse: seq<bool>, r: nat)
    requires r < |inUse| && !inUse[r]
    ensures Free(inUse[r := true]) == Free(inUse) - 1
  {
    if r == 0 {
      assert inUse[0 := true][1..] == inUse[1..];
    } else {
      assert inUse[r := true][1..] == inUse[1..][r - 1 := true];
      FreeDrops(inUse[1..], r - 1);
    }
  }

  ghost function InUseSet(inUse: seq<bool>): set<nat> {
    set r: nat | r < |inUse| && inUse[r]
  }

  /** Every prerequisite is there, and none is known to be impossible. */
  ghost predicate Ready(w: World, targets: set<string>, impossible: set<string>, explicit: seq<string>, names: seq<string>) {
    forall k :: 0 <= k < |names| ==> names[k] !in impossible && Available(w, targets, explicit, names[k])
  }

  /** The candidate could be used as things are. */
  ghost predicate CanUse(w: World, targets: set<string>, impossible: set<string>, c: Option<Candidate>, name: string, dir: string, explicit: seq<string>) {
    c.Some? && c.value.rule < |w.rules| && c.value.pat < |w.rules[c.value.rule].targets| &&
    Ready(w, targets, impossible, explicit, NamesFor(w, c.value, name, dir))
  }

  lemma {:induction false} CanUseIs(w: World, targets: set<string>, impossible: set<string>, c: Option<Candidate>, name: string, dir: string, explicit: seq<string>)
    ensures c.None? ==> !CanUse(w, targets, impossible, c, name, dir, explicit)
    ensures c.Some? && c.value.rule < |w.rules| && c.value.pat < |w.rules[c.value.rule].targets| ==>
      (CanUse(w, targets, impossible, c, name, dir, explicit) <==> Ready(w, targets, impossible, explicit, NamesFor(w, c.value, name, dir)))
  {
    hide Ready, NamesFor;
  }

  /** None of the first `n` candidates could be used. */
  ghost predicate NoneUsable(w: World, targets: set<string>, impossible: set<string>, l: seq<Option<Candidate>>, n: nat, name: string, dir: string, explicit: seq<string>) {
    n <= |l| && forall i :: 0 <= i < n ==> !CanUse(w, targets, impossible, l[i], name, dir, explicit)
  }

  lemma {:induction false} NoneUsableNext(w: World, targets: set<string>, impossible: set<string>, l: seq<Option<Candidate>>, n: nat, name: string, dir: string, explicit: seq<string>)
    requires NoneUsable(w, targets, impossible, l, n, name, dir, explicit) && n < |l|
    ensures !CanUse(w, targets, impossible, l[n], name, dir, explicit) ==> NoneUsable(w, targets, impossible, l, n + 1, name, dir, explicit)
  {
    hide CanUse;
  }

  lemma {:induction false} NoneUsableAt(w: World, targets: set<string>, impossible: set<string>, l: seq<Option<Candidate>>, n: nat, name: string, dir: string, explicit: seq<string>)
    ensures NoneUsable(w, targets, impossible, l, n, name, dir, explicit) ==>
            forall i :: 0 <= i < n ==> !CanUse(w, targets, impossible, l[i], name, dir, explicit)
    ensures NoneUsable(w, targets, impossible, l, 0, name, dir, explicit)
  {
    hide CanUse;
  }

  /** What is left of the candidates; from `from` on they all are. */
  ghost predicate LeftOf(tryrules: seq<Option<Candidate>>, left: seq<Option<Candidate>>, from: nat) {
    from <= |left| == |tryrules| && (forall i :: 0 <= i < |left| ==> left[i] == tryrules[i] || left[i].None?) &&
    forall i :: from <= i < |left| ==> left[i] == tryrules[i]
  }

  lemma {:induction false} LeftOfNext(tryrules: seq<Option<Candidate>>, left: seq<Option<Candidate>>, from: nat)
    requires LeftOf(tryrules, left, from) && from < |left|
    ensures left[from] == tryrules[from] && LeftOf(tryrules, left, from + 1) && LeftOf(tryrules, left[from := None], from + 1)
  {
  }

  lemma {:induction false} LeftOfAt(tryrules: seq<Option<Candidate>>, left: seq<Option<Candidate>>, from: nat)
    ensures LeftOf(tryrules, left, from) ==>
      |left| == |tryrules| && (forall i :: 0 <= i < |left| ==> left[i] == tryrules[i] || left[i].None?) &&
      (from < |left| ==> left[from] == tryrules[from])
    ensures LeftOf(tryrules, tryrules, 0)
  {
  }

  /** The first candidate that needs no intermediate file. */
  ghost predicate FirstIn(w: World, targets: set<string>, impossible: set<string>, l: seq<Option<Candidate>>, i: nat, name: string, dir: string, explicit: seq<string>) {
    i < |l| && CanUse(w, targets, impossible, l[i], name, dir, explicit) &&
    forall j :: 0 <= j < i ==> !CanUse(w, targets, impossible, l[j], name, dir, explicit)
  }

  ghost predicate FirstUsable(w: World, inUse: seq<bool>, targets: set<string>, impossible: set<string>, i: nat, recursing: bool, name: string, explicit: seq<string>)
    requires |inUse| == |w.rules|
  {
    FirstIn(w, targets, impossible, Tryable(w.rules, inUse, recursing, name, DirOf(w, name)), i, name, DirOf(w, name), explicit)
  }

  // ----- what the search leaves behind

  ghost function EntryOf(w: World, t: Tree, explicit: seq<string>): Entry
    requires t.rule < |w.rules| && t.pat < |w.rules[t.rule].targets|
  {
    Entry(KidNames(t.kids) + explicit, Some(t.rule), Some(DirPart(w.rules[t.rule].targets[t.pat], t.dir) + t.stem), true)
  }

  /** The entry is that of a file with this derivation. */
  ghost predicate Realises(w: World, t: Tree, e: Entry, explicit: seq<string>) {
    t.rule < |w.rules| && t.pat < |w.rules[t.rule].targets| && e == EntryOf(w, t, explicit)
  }

  ghost function Logged(log: seq<Tree>): set<string> {
    set t | t in log :: t.name
  }

  /** Each prerequisite is there, or is a target by now. */
  ghost predicate Settled(w: World, targets: set<string>, t: Tree, explicit: seq<string>) {
    forall k :: 0 <= k < |t.kids| ==> Available(w, targets, explicit, NodeName(t.kids[k]))
  }

  ghost predicate Established(w: World, targets: set<string>, t: Tree) {
    Derives(w, targets, t, {}, [], false) && Settled(w, targets, t, [])
  }

  /** Each new target was derived from the targets there were before it, its intermediate files
      among them. */
  ghost predicate Grounded(w: World, start: set<string>, log: seq<Tree>) {
    forall i :: 0 <= i < |log| ==> log[i].name !in start && Established(w, start + Logged(log[..i]), log[i])
  }

  ghost predicate RecordOf(w: World, files: map<string, Entry>, log: seq<Tree>, n: string) {
    n in files && exists i :: 0 <= i < |log| && log[i].name == n && Realises(w, log[i], files[n], [])
  }

  /** The table shows a derivation of each new target. */
  ghost predicate Recorded(w: World, files: map<string, Entry>, log: seq<Tree>) {
    forall n :: n in Logged(log) ==> RecordOf(w, files, log, n)
  }

  /** Other files keep their entries. */
  ghost predicate Kept(files: map<string, Entry>, before: map<string, Entry>, log: seq<Tree>) {
    forall n :: n in before && n !in Logged(log) ==> n in files && files[n] == before[n]
  }

  /** What has been found to be a target so far. */
  function TargetSet(files: map<string, Entry>): set<string> {
    set n | n in files && files[n].isTarget
  }

  /** What was found to be impossible is no file and was no target. */
  ghost predicate RuledOut(w: World, impossible: set<string>, refused: set<string>, start: set<string>) {
    forall n :: n in impossible && n !in refused ==> !w.exists_(n) && !w.vpath(n) && n !in start
  }

  // ----- when no rule is found

  /** The candidate needs a file that is known to be impossible. */
  ghost predicate Blocked(w: World, impossible: set<string>, c: Candidate, name: string, dir: string) {
    c.rule < |w.rules| && c.pat < |w.rules[c.rule].targets| && SomeIn(NamesFor(w, c, name, dir), impossible)
  }

  ghost predicate SomeIn(names: seq<string>, impossible: set<string>) {
    exists k :: 0 <= k < |names| && names[k] in impossible
  }

  /** Each of the first `n` candidates is blocked, or its rule is terminal and allows no intermediate files. */
  ghost predicate NoneLeft(w: World, impossible: set<string>, l: seq<Option<Candidate>>, n: nat, name: string, dir: string) {
    n <= |l| && forall i :: 0 <= i < n && l[i].Some? ==> Barred(w, impossible, l[i].value, name, dir)
  }

  ghost predicate Barred(w: World, impossible: set<string>, c: Candidate, name: string, dir: string) {
    c.rule < |w.rules| && (w.rules[c.rule].terminal || Blocked(w, impossible, c, name, dir))
  }

  /** The candidates that were struck out are blocked. */
  ghost predicate Struck(w: World, impossible: set<string>, tryrules: seq<Option<Candidate>>, left: seq<Option<Candidate>>, name: string, dir: string) {
    |left| == |tryrules| && forall i :: 0 <= i < |left| && left[i].None? && tryrules[i].Some? ==> Blocked(w, impossible, tryrules[i].value, name, dir)
  }

  /** No rule can make the file: every one that may be tried is terminal or needs an impossible file. */
  ghost predicate Hopeless(w: World, inUse: seq<bool>, impossible: set<string>, recursing: bool, name: string) {
    |inUse| == |w.rules| &&
    forall c :: Some(c) in Tryable(w.rules, inUse, recursing, name, DirOf(w, name)) ==> Barred(w, impossible, c, name, DirOf(w, name))
  }

  /** Each name found to be impossible was searched for in vain, with some rules in use. */
  ghost predicate Exhausted(w: World, impossible: set<string>, refused: set<string>) {
    forall n :: n in impossible && n !in refused ==> InVain(w, impossible, n)
  }

  ghost predicate InVain(w: World, impossible: set<string>, n: string) {
    exists inUse :: Hopeless(w, inUse, impossible, true, n)
  }

  lemma {:induction false} BlockedStill(w: World, impossible: set<string>, c: Candidate, name: string, dir: string, more: set<string>)
    requires impossible <= more
    ensures Blocked(w, impossible, c, name, dir) ==> Blocked(w, more, c, name, dir)
    ensures Barred(w, impossible, c, name, dir) ==> Barred(w, more, c, name, dir)
  {
    hide NamesFor;
  }

  lemma {:induction false} NoneLeftStill(w: World, impossible: set<string>, l: seq<Option<Candidate>>, n: nat, name: string, dir: string, more: set<string>)
    requires impossible <= more && NoneLeft(w, impossible, l, n, name, dir)
    ensures NoneLeft(w, more, l, n, name, dir)
  {
    hide Barred;
    forall i | 0 <= i < n && l[i].Some?
      ensures Barred(w, more, l[i].value, name, dir)
    {
      BlockedStill(w, impossible, l[i].value, name, dir, more);
    }
  }

  lemma {:induction false} StruckStill(w: World, impossible: set<string>, tryrules: seq<Option<Candidate>>, left: seq<Option<Candidate>>, name: string, dir: string, more: set<string>)
    requires impossible <= more && Struck(w, impossible, tryrules, left, name, dir)
    ensures Struck(w, more, tryrules, left, name, dir)
  {
    hide Blocked;
    forall i | 0 <= i < |left| && left[i].None? && tryrules[i].Some?
      ensures Blocked(w, more, tryrules[i].value, name, dir)
    {
      BlockedStill(w, impossible, tryrules[i].value, name, dir, more);
    }
  }

  lemma {:induction false} NothingTried(w: World, impossible: set<string>, l: seq<Option<Candidate>>, name: string, dir: string)
    ensures NoneLeft(w, impossible, l, 0, name, dir) && Struck(w, impossible, l, l, name, dir)
  {
  }

  lemma {:induction false} NoneLeftNext(w: World, impossible: set<string>, l: seq<Option<Candidate>>, n: nat, name: string, dir: string)
    requires NoneLeft(w, impossible, l, n, name, dir) && n < |l|
    requires l[n].Some? ==> l[n].value.rule < |w.rules| && (w.rules[l[n].value.rule].terminal || Blocked(w, impossible, l[n].value, name, dir))
    ensures NoneLeft(w, impossible, l, n + 1, name, dir)
  {
    hide Blocked;
  }

  lemma {:induction false} StruckNext(w: World, impossible: set<string>, tryrules: seq<Option<Candidate>>, left: seq<Option<Candidate>>, n: nat, name: string, dir: string)
    requires Struck(w, impossible, tryrules, left, name, dir) && n < |left|
    requires tryrules[n].Some? ==> Blocked(w, impossible, tryrules[n].value, name, dir)
    ensures Struck(w, impossible, tryrules, left[n := None], name, dir)
  {
    hide Blocked;
  }

  lemma {:induction false} HopelessStill(w: World, inUse: seq<bool>, impossible: set<string>, recursing: bool, name: string, more: set<string>)
    requires impossible <= more && Hopeless(w, inUse, impossible, recursing, name)
    ensures Hopeless(w, inUse, more, recursing, name)
  {
    hide Barred, Tryable, DirOf;
    forall c | Some(c) in Tryable(w.rules, inUse, recursing, name, DirOf(w, name))
      ensures Barred(w, more, c, name, DirOf(w, name))
    {
      BlockedStill(w, impossible, c, name, DirOf(w, name), more);
    }
  }

  /** One more name is impossible. */
  lemma {:induction false} ExhaustedPlus(w: World, inUse: seq<bool>, impossible: set<string>, refused: set<string>, name: string)
    requires Exhausted(w, impossible, refused) && Hopeless(w, inUse, impossible, true, name)
    ensures Exhausted(w, impossible + {name}, refused)
  {
    hide Hopeless;
    forall n | n in impossible + {name} && n !in refused
      ensures InVain(w, impossible + {name}, n)
    {
      var used := inUse;
      if n != name {
        assert InVain(w, impossible, n);
        used :| Hopeless(w, used, impossible, true, n);
      }
      HopelessStill(w, used, impossible, true, n, impossible + {name});
    }
  }

  lemma {:induction false} LoggedPlus(log: seq<Tree>, t: Tree)
    ensures Logged(log + [t]) == Logged(log) + {t.name}
  {
    assert (log + [t])[|log|] == t;
    assert forall u :: u in log ==> u in log + [t];
  }

  lemma {:induction false} LoggedPrefix(log: seq<Tree>, more: seq<Tree>)
    requires log <= more
    ensures Logged(log) <= Logged(more)
  {
    assert forall u :: u in log ==> u in more;
  }

  lemma {:induction false} GroundedPlus(w: World, start: set<string>, log: seq<Tree>, t: Tree)
    requires Grounded(w, start, log) && t.name !in start && Established(w, start + Logged(log), t)
    ensures Grounded(w, start, log + [t])
  {
    hide Established, Logged;
    forall i | 0 <= i < |log + [t]|
      ensures (log + [t])[i].name !in start && Established(w, start + Logged((log + [t])[..i]), (log + [t])[i])
    {
      assert (log + [t])[..i] == log[..i];
      assert i == |log| ==> log[..i] == log;
    }
  }

  /** The prerequisites a new target has in the table are there. */
  lemma {:induction false} RecordSettled(w: World, files: map<string, Entry>, start: set<string>, log: seq<Tree>, file: string, n: string)
    requires Grounded(w, start, log) && Recorded(w, files, log) && file in Logged(log)
    requires file in files && n in files[file].deps
    ensures Available(w, start + Logged(log), [], n)
  {
    assert RecordOf(w, files, log, file);
    var i :| 0 <= i < |log| && log[i].name == file && Realises(w, log[i], files[file], []);
    var t := log[i];
    assert Established(w, start + Logged(log[..i]), t);
    assert KidNames(t.kids) + [] == KidNames(t.kids);
    var k :| 0 <= k < |t.kids| && n == KidNames(t.kids)[k];
    LoggedPrefix(log[..i], log);
    assert Available(w, start + Logged(log[..i]), [], NodeName(t.kids[k]));
  }

  lemma {:induction false} RecordedHas(w: World, files: map<string, Entry>, log: seq<Tree>, n: string)
    requires Recorded(w, files, log) && n in Logged(log)
    ensures n in files
  {
    assert RecordOf(w, files, log, n);
  }

  lemma {:induction false} RecordedPlus(w: World, files: map<string, Entry>, log: seq<Tree>, t: Tree, e: Entry)
    requires Recorded(w, files, log) && Realises(w, t, e, [])
    ensures Recorded(w, files[t.name := e], log + [t])
  {
    hide Realises;
    LoggedPlus(log, t);
    forall n | n in Logged(log + [t])
      ensures RecordOf(w, files[t.name := e], log + [t], n)
    {
      if n == t.name {
        assert (log + [t])[|log|] == t;
      } else {
        assert RecordOf(w, files, log, n);
        var i :| 0 <= i < |log| && log[i].name == n && Realises(w, log[i], files[n], []);
        assert (log + [t])[i] == log[i];
      }
    }
  }

  lemma {:induction false} RecordedBlank(w: World, files: map<string, Entry>, log: seq<Tree>, n: string)
    requires Recorded(w, files, log) && n !in files
    ensures Recorded(w, files[n := BLANK], log)
  {
    forall m | m in Logged(log)
      ensures RecordOf(w, files[n := BLANK], log, m)
    {
      assert RecordOf(w, files, log, m);
    }
  }

  lemma {:induction false} KeptPlus(files: map<string, Entry>, before: map<string, Entry>, log: seq<Tree>, t: Tree, e: Entry)
    requires Kept(files, before, log)
    ensures Kept(files[t.name := e], before, log + [t])
  {
    LoggedPlus(log, t);
  }

  lemma {:induction false} TargetsBlank(files: map<string, Entry>, n: string)
    requires n !in files
    ensures TargetSet(files[n := BLANK]) == TargetSet(files)
  {
  }

  lemma {:induction false} TargetsPlus(files: map<string, Entry>, n: string, e: Entry)
    requires e.isTarget
    ensures TargetSet(files[n := e]) == TargetSet(files) + {n}
  {
  }

  // ----- prerequisites found for a rule

  ghost predicate KidOk(w: World, start: set<string>, targets: set<string>, r: nat, d: Idep, kid: Node, avoid: set<nat>, explicit: seq<string>)
    requires r < |w.rules|
  {
    d.name == NodeName(kid) &&
    match kid
    case Leaf(n) => d.made == None && Available(w, targets, explicit, n)
    case Sub(s) =>
      !w.rules[r].terminal && s.name !in start && Derives(w, targets, s, avoid, [], false) && Settled(w, targets, s, []) &&
      d.made.Some? && Realises(w, s, d.made.value, [])
  }

  ghost predicate KidsOk(w: World, start: set<string>, targets: set<string>, r: nat, ideps: seq<Idep>, kids: seq<Node>, avoid: set<nat>, explicit: seq<string>)
    requires r < |w.rules|
  {
    |ideps| == |kids| && forall i :: 0 <= i < |kids| ==> KidOk(w, start, targets, r, ideps[i], kids[i], avoid, explicit)
  }

  predicate AllLeaves(kids: seq<Node>) {
    forall i :: 0 <= i < |kids| ==> kids[i].Leaf?
  }

  lemma {:induction false} KidsStill(w: World, start: set<string>, targets: set<string>, r: nat, ideps: seq<Idep>, kids: seq<Node>, avoid: set<nat>, explicit: seq<string>, targets': set<string>)
    requires r < |w.rules| && KidsOk(w, start, targets, r, ideps, kids, avoid, explicit) && targets <= targets'
    ensures KidsOk(w, start, targets', r, ideps, kids, avoid, explicit)
  {
    forall i | 0 <= i < |kids|
      ensures KidOk(w, start, targets', r, ideps[i], kids[i], avoid, explicit)
    {
      assert KidOk(w, start, targets, r, ideps[i], kids[i], avoid, explicit);
      if kids[i].Sub? {
        DerivesStill(w, targets, kids[i].tree, avoid, [], false, targets', avoid);
      }
    }
  }

  lemma {:induction false} KidsPlus(w: World, start: set<string>, targets: set<string>, r: nat, ideps: seq<Idep>, kids: seq<Node>, d: Idep, kid: Node, avoid: set<nat>, explicit: seq<string>)
    requires r < |w.rules| && KidsOk(w, start, targets, r, ideps, kids, avoid, explicit) && KidOk(w, start, targets, r, d, kid, avoid, explicit)
    ensures KidsOk(w, start, targets, r, ideps + [d], kids + [kid], avoid, explicit)
    ensures KidNames(kids + [kid]) == KidNames(kids) + [NodeName(kid)]
  {
    hide KidOk;
  }

  /** Prerequisites that all are supported make a derivation. */
  lemma {:induction false} Assemble(w: World, start: set<string>, targets: set<string>, t: Tree, ideps: seq<Idep>, avoid: set<nat>, explicit: seq<string>, top: bool)
    requires t.rule < |w.rules|
    requires RuleFits(w, t, avoid, top) && KidsOk(w, start, targets, t.rule, ideps, t.kids, avoid + {t.rule}, explicit)
    ensures Derives(w, targets, t, avoid, explicit, top)
  {
    hide RuleFits;
    forall i | 0 <= i < |t.kids|
      ensures Supported(w, targets, t, i, avoid, explicit)
    {
      assert KidOk(w, start, targets, t.rule, ideps[i], t.kids[i], avoid + {t.rule}, explicit);
    }
  }

  lemma {:induction false} CandidateFits(w: World, inUse: seq<bool>, recursing: bool, name: string, dir: string, c: Candidate)
    requires |inUse| == |w.rules| && dir <= name && IsCandidate(w.rules, inUse, recursing, name, dir, c)
    ensures var p := w.rules[c.rule].targets[c.pat];
            |DirPart(p, dir)| + |p.prefix| + |p.suffix| <= |name| && Fits(p, dir, name, StemIn(p, dir, name))
  {
    FitsIff(w.rules[c.rule].targets[c.pat], dir, name);
  }

  lemma {:induction false} KidAt(w: World, start: set<string>, targets: set<string>, r: nat, ideps: seq<Idep>, kids: seq<Node>, avoid: set<nat>, explicit: seq<string>, k: nat)
    requires r < |w.rules| && KidsOk(w, start, targets, r, ideps, kids, avoid, explicit) && k < |kids|
    ensures ideps[k].name == NodeName(kids[k]) && (ideps[k].made.Some? <==> kids[k].Sub?)
    ensures kids[k].Sub? ==> ideps[k].made.value.isTarget && ideps[k].name !in start
    ensures kids[k].Sub? ==> Realises(w, kids[k].tree, ideps[k].made.value, []) && Established(w, targets, kids[k].tree)
  {
    assert KidOk(w, start, targets, r, ideps[k], kids[k], avoid, explicit);
    if kids[k].Sub? {
      DerivesStill(w, targets, kids[k].tree, avoid, [], false, targets, {});
    }
  }

  method IdepNames(ideps: seq<Idep>) returns (names: seq<string>)
    ensures |names| == |ideps| && forall i :: 0 <= i < |ideps| ==> names[i] == ideps[i].name
  {
    names := [];
    var k := 0;
    while k < |ideps|
      invariant k <= |ideps| && |names| == k && forall i :: 0 <= i < k ==> names[i] == ideps[i].name
    {
      names := names + [ideps[k].name];
      k := k + 1;
    }
  }

  lemma {:induction false} IdepNamesAre(w: World, start: set<string>, targets: set<string>, r: nat, ideps: seq<Idep>, kids: seq<Node>, avoid: set<nat>, explicit: seq<string>, names: seq<string>)
    requires r < |w.rules| && KidsOk(w, start, targets, r, ideps, kids, avoid, explicit)
    requires |names| == |ideps| && forall i :: 0 <= i < |ideps| ==> names[i] == ideps[i].name
    ensures names == KidNames(kids)
  {
    forall i | 0 <= i < |kids|
      ensures names[i] == KidNames(kids)[i]
    {
      assert KidOk(w, start, targets, r, ideps[i], kids[i], avoid, explicit);
    }
  }

  lemma {:induction false} KidsSize(w: World, start: set<string>, targets: set<string>, r: nat, ideps: seq<Idep>, kids: seq<Node>, avoid: set<nat>, explicit: seq<string>)
    requires r < |w.rules| && KidsOk(w, start, targets, r, ideps, kids, avoid, explicit)
    ensures |ideps| == |kids|
  {
  }

  lemma {:induction false} CandidateRuleFits(w: World, inUse: seq<bool>, recursing: bool, name: string, dir: string, c: Candidate, kids: seq<Node>)
    requires |inUse| == |w.rules| && IsDir(w, name, dir) && IsCandidate(w.rules, inUse, recursing, name, dir, c)
    requires KidNames(kids) == NamesFor(w, c, name, dir)
    ensures RuleFits(w, Built(name, c.rule, c.pat, dir, StemIn(w.rules[c.rule].targets[c.pat], dir, name), kids), InUseSet(inUse), !recursing)
  {
    CandidateFits(w, inUse, recursing, name, dir, c);
    hide FitsSome, Fits, PrereqNames;
    var t := Built(name, c.rule, c.pat, dir, StemIn(w.rules[c.rule].targets[c.pat], dir, name), kids);
    assert KidNames(t.kids) == PrereqNames(w, w.rules[t.rule].deps, t.stem, DirPart(w.rules[t.rule].targets[t.pat], t.dir));
  }

  /** The entry of a file with this derivation, read off: first the prerequisites of the rule, in order,
      and behind them those it had; the commands of the rule; and a stem that rebuilds the name. */
  lemma {:induction false} EntryShows(w: World, t: Tree, e: Entry, had: seq<string>, targets: set<string>, avoid: set<nat>, explicit: seq<string>, top: bool)
    requires Realises(w, t, e, had) && Derives(w, targets, t, avoid, explicit, top)
    ensures |e.deps| == |t.kids| + |had| && e.deps[|t.kids|..] == had
    ensures forall k :: 0 <= k < |t.kids| ==> e.deps[k] == NodeName(t.kids[k])
    ensures e.cmds == Some(t.rule) && e.stem.Some? && StemRebuilds(w, t.rule, t.pat, e.stem.value, t.name)
  {
    var p := w.rules[t.rule].targets[t.pat];
    var dir := DirPart(p, t.dir);
    assert e.stem.value == dir + t.stem && t.name == dir + p.prefix + t.stem + p.suffix;
  }

  /** Put into the target pattern behind the directory, the rest of the stem gives the name.  A pattern with
      a slash is matched with the whole name. */
  ghost predicate StemRebuilds(w: World, rule: nat, pat: nat, stem: string, name: string) {
    rule < |w.rules| && pat < |w.rules[rule].targets| &&
    var p := w.rules[rule].targets[pat];
    exists dir, rest :: stem == dir + rest && name == dir + p.prefix + rest + p.suffix && IsStemDir(w, p, name, dir)
  }

  ghost predicate IsStemDir(w: World, p: Pattern, name: string, dir: string) {
    if '/' in p.prefix || '/' in p.suffix then dir == "" else IsDir(w, name, dir)
  }

  /** The same of what a search fills in. */
  lemma {:induction false} FilledShows(w: World, start: set<string>, log: seq<Tree>, name: string, recursing: bool, explicit: seq<string>, t: Tree, e: Entry,
                                       targets: set<string>, avoid: set<nat>, top: bool)
    requires Filled(w, start, log, name, recursing, explicit, t, e) && Derives(w, targets, t, avoid, explicit, top)
    ensures |e.deps| >= |t.kids| && forall k :: 0 <= k < |t.kids| ==> e.deps[k] == NodeName(t.kids[k])
    ensures recursing || name !in Logged(log) ==> e.deps[|t.kids|..] == explicit
    ensures e.cmds == Some(t.rule) && e.stem.Some? && StemRebuilds(w, t.rule, t.pat, e.stem.value, t.name)
  {
    hide Realises, Derives, StemRebuilds, Logged, Available;
    var had :| Realises(w, t, e, had) && (recursing || name !in Logged(log) ==> had == explicit);
    EntryShows(w, t, e, had, targets, avoid, explicit, top);
  }

  /** And of every intermediate file: it has the prerequisites of its rule and no others. */
  lemma {:induction false} RecordShows(w: World, files: map<string, Entry>, start: set<string>, log: seq<Tree>, n: string)
    requires Grounded(w, start, log) && RecordOf(w, files, log, n)
    ensures exists i ::
      0 <= i < |log| && log[i].name == n && |files[n].deps| == |log[i].kids| &&
      (forall k :: 0 <= k < |log[i].kids| ==> files[n].deps[k] == NodeName(log[i].kids[k])) &&
      files[n].cmds == Some(log[i].rule) && files[n].stem.Some? && StemRebuilds(w, log[i].rule, log[i].pat, files[n].stem.value, n)
  {
    hide Realises, Derives, StemRebuilds, Logged, Settled;
    var i :| 0 <= i < |log| && log[i].name == n && Realises(w, log[i], files[n], []);
    assert Established(w, start + Logged(log[..i]), log[i]);
    EntryShows(w, log[i], files[n], [], start + Logged(log[..i]), {}, [], false);
  }

  /** The derivation is by the i-th of these candidates. */
  ghost predicate IsOf(l: seq<Option<Candidate>>, i: nat, t: Tree) {
    i < |l| && l[i].Some? && l[i].value.rule == t.rule && l[i].value.pat == t.pat
  }

  ghost predicate Chosen(l: seq<Option<Candidate>>, t: Tree) {
    exists i :: IsOf(l, i, t)
  }

  /** The entry is that of the derivation, and behind it the prerequisites the file had. */
  ghost predicate Filled(w: World, start: set<string>, log: seq<Tree>, name: string, recursing: bool, explicit: seq<string>, t: Tree, e: Entry) {
    exists had :: Realises(w, t, e, had) &&
      (recursing || name !in Logged(log) ==> had == explicit) &&
      (forall n :: n in had ==> n in explicit || Available(w, start + Logged(log), [], n))
  }

  ghost predicate SubsLogged(kids: seq<Node>, log: seq<Tree>) {
    forall i :: 0 <= i < |kids| && kids[i].Sub? ==> kids[i].tree.name in Logged(log)
  }

  lemma {:induction false} SubsLoggedNext(kids: seq<Node>, k: nat, log: seq<Tree>, log': seq<Tree>)
    requires k < |kids| && SubsLogged(kids[..k], log) && Logged(log) <= Logged(log')
    requires kids[k].Sub? ==> kids[k].tree.name in Logged(log')
    ensures SubsLogged(kids[..k + 1], log')
  {
    hide Logged;
  }

  lemma {:induction false} NowSettled(w: World, start: set<string>, log: seq<Tree>, t: Tree, ideps: seq<Idep>, avoid: set<nat>, explicit: seq<string>)
    requires t.rule < |w.rules| && KidsOk(w, start, start + Logged(log), t.rule, ideps, t.kids, avoid, explicit) && SubsLogged(t.kids, log)
    ensures Settled(w, start + Logged(log), t, explicit)
  {
    hide Logged;
    forall k | 0 <= k < |t.kids|
      ensures Available(w, start + Logged(log), explicit, NodeName(t.kids[k]))
    {
      assert KidOk(w, start, start + Logged(log), t.rule, ideps[k], t.kids[k], avoid, explicit);
    }
  }

  /** Before a search nothing is found yet. */
  lemma {:induction false} Beginning(w: World, files: map<string, Entry>)
    ensures Grounded(w, TargetSet(files), []) && Recorded(w, files, []) && Kept(files, files, [])
    ensures TargetSet(files) + Logged([]) == TargetSet(files)
  {
  }

  /** After it only the file itself is left to be filled in. */
  lemma {:induction false} Ending(w: World, files: map<string, Entry>, before: map<string, Entry>, start: set<string>, log: seq<Tree>, name: string, found: Option<Entry>)
    requires Grounded(w, start, log) && Recorded(w, files, log) && Kept(files, before, log) && TargetSet(files) == start + Logged(log)
    requires start == TargetSet(before) && (found.Some? ==> found.value.isTarget)
    ensures var files' := if found.Some? then files[name := found.value] else files;
            TargetSet(files') == start + Logged(log) + (if found.Some? then {name} else {}) &&
            (forall n :: n in start && n != name ==> n in files' && files'[n] == before[n]) &&
            (forall n :: n in Logged(log) && n != name ==> RecordOf(w, files', log, n))
  {
    NewTargets(w, start, log);
    hide Logged, Grounded;
    EndingTargets(files, name, found);
    EndingRecords(w, files, log, name, found);
    hide RecordOf, TargetSet;
    assert forall n :: n in start ==> n in before && n !in Logged(log);
  }

  lemma {:induction false} EndingTargets(files: map<string, Entry>, name: string, found: Option<Entry>)
    requires found.Some? ==> found.value.isTarget
    ensures TargetSet(if found.Some? then files[name := found.value] else files) == TargetSet(files) + (if found.Some? then {name} else {})
  {
  }

  lemma {:induction false} EndingRecords(w: World, files: map<string, Entry>, log: seq<Tree>, name: string, found: Option<Entry>)
    requires Recorded(w, files, log)
    ensures forall n :: n in Logged(log) && n != name ==> RecordOf(w, if found.Some? then files[name := found.value] else files, log, n)
  {
    hide Logged;
    forall n | n in Logged(log) && n != name
      ensures RecordOf(w, if found.Some? then files[name := found.value] else files, log, n)
    {
      assert RecordOf(w, files, log, n);
    }
  }

  lemma {:induction false} NewTargets(w: World, start: set<string>, log: seq<Tree>)
    requires Grounded(w, start, log)
    ensures Logged(log) !! start
  {
    hide Established;
  }

  class Search {
    const w: World
    var inUse: seq<bool>
    var files: map<string, Entry>
    var impossible: set<string>
    ghost var start: set<string>      // the targets there were when the search began
    ghost var before: map<string, Entry>  // the table then
    ghost var refused: set<string>    // and the names already known to be impossible
    ghost var log: seq<Tree>          // the derivations of the new targets, in the order they were entered

    ghost function Targets(): set<string>
      reads this
    {
      start + Logged(log)
    }

    ghost predicate Inv()
      reads this
    {
      |inUse| == |w.rules| && Grounded(w, start, log) && Recorded(w, files, log) &&
      TargetSet(files) == Targets() && RuledOut(w, impossible, refused, start) && Exhausted(w, impossible, refused) &&
      Kept(files, before, log)
    }

    /** Only the search's own records change, and nothing found is lost. */
    twostate predicate Goes()
      reads this
    {
      inUse == old(inUse) && start == old(start) && before == old(before) && refused == old(refused) &&
      old(log) <= log && old(impossible) <= impossible
    }

    /** Nothing was found and nothing ruled out. */
    twostate predicate Rests()
      reads this
    {
      Goes() && log == old(log) && impossible == old(impossible) && files == old(files)
    }

    /** Makes sure that each of these files has an entry. */
    method EnterFiles(names: seq<string>)
      requires Inv()
      modifies this`files
      ensures Inv()
    {
      hide Grounded, RuledOut, Recorded, TargetSet, Logged;
      var k := 0;
      while k < |names|
        invariant Inv()
      {
        if names[k] !in files {
          RecordedBlank(w, files, log, names[k]);
          TargetsBlank(files, names[k]);
          files := files[names[k] := BLANK];
        }
        k := k + 1;
      }
    }

    /** Enters an intermediate file as a target, and its prerequisites as files. */
    method EnterIntermediate(name: string, made: Entry, ghost t: Tree)
      requires Inv() && made.isTarget && t.name == name && name !in start && Realises(w, t, made, [])
      requires Established(w, Targets(), t)
      modifies this`files, this`log
      ensures Inv() && log == old(log) + [t] && name in Logged(log)
    {
      hide Grounded, Recorded, Established, Logged, RuledOut, Realises, TargetSet, Kept;
      GroundedPlus(w, start, log, t);
      RecordedPlus(w, files, log, t, made);
      TargetsPlus(files, name, made);
      LoggedPlus(log, t);
      KeptPlus(files, before, log, t, made);
      files := files[name := made];
      log := log + [t];
      assert Targets() == old(Targets()) + {name};
      EnterFiles(made.deps);
    }

    /** Whether a name is entered as a target. */
    method IsTarget(name: string) returns (b: bool)
      requires Inv()
      ensures b <==> name in Targets()
    {
      b := name in files && files[name].isTarget;
    }

    /** The file that a top-level search is for is in the table, with prerequisites `explicit`
        when the search begins; a search for an intermediate file knows none. */
    ghost predicate IsFor(file: string, recursing: bool, explicit: seq<string>)
      reads this
    {
      if recursing then explicit == [] else file in before && before[file].deps == explicit
    }

    /** The prerequisites the file has by now: others only once the file itself was entered as an
        intermediate file, and then they all are there. */
    method ExplicitDeps(file: string, recursing: bool, ghost explicit: seq<string>) returns (deps: seq<string>)
      requires Inv() && IsFor(file, recursing, explicit)
      ensures recursing || file !in Logged(log) ==> deps == explicit
      ensures forall n :: n in deps ==> n in explicit || Available(w, Targets(), [], n)
    {
      if recursing {
        return [];
      }
      hide Grounded, RuledOut, TargetSet, Recorded, Available, Logged;
      if file in Logged(log) {
        RecordedHas(w, files, log, file);
        forall n | n in files[file].deps
          ensures Available(w, Targets(), [], n)
        {
          RecordSettled(w, files, start, log, file, n);
        }
      }
      deps := files[file].deps;
    }

    /** Tries one prerequisite of rule `r`, which is in use by now. */
    method TestPrereq(name: string, file: string, recursing: bool, ghost explicit: seq<string>, ghost r: nat, intermedOk: bool)
      returns (v: Verdict, d: Idep, ghost kid: Node)
      requires Inv() && IsFor(file, recursing, explicit) && r < |w.rules| && (intermedOk ==> !w.rules[r].terminal)
      requires !intermedOk ==> recursing || log == []
      modifies this
      ensures Inv() && Goes() && d.name == NodeName(kid) == name
      ensures v.Applies? ==> KidOk(w, start, Targets(), r, d, kid, InUseSet(inUse), explicit)
      ensures !intermedOk ==> Rests() && (v.Applies? ==> kid.Leaf?) &&
                              (v.Applies? <==> name !in impossible && Available(w, Targets(), explicit, name))
      ensures (intermedOk && !v.Applies?) || v.Impossible? ==> name in impossible
      ensures Available(w, Targets(), explicit, name) <==>
              name in explicit || name in Targets() || w.exists_(name) || w.vpath(name)
      decreases Free(inUse), 4
    {
      hide Grounded, Recorded, Derives, Established, RuledOut, Realises, Kept, Settled, Exhausted, Hopeless;
      d, kid := Idep(name, None), Leaf(name);
      if name in impossible {
        return Impossible, d, kid;
      }
      var target := IsTarget(name);
      var mentioned := ExplicitDeps(file, recursing, explicit);
      if name in mentioned || target || w.exists_(name) || w.vpath(name) {
        assert Available(w, Targets(), explicit, name);
        return Applies, d, kid;
      }
      if intermedOk {
        hide TargetSet, Logged;
        StartIsTarget();
        var made, t := PatternSearch(name, true, []);
        if made.Some? {
          return Applies, Idep(name, made), Sub(t);
        }
        RuleOut(name);
      }
      return Fails, d, kid;
    }

    lemma {:induction false} StartIsTarget()
      ensures start <= Targets()
    {
    }

    /** A name that no file was found for is not searched for again. */
    method RuleOut(name: string)
      requires Inv() && !w.exists_(name) && !w.vpath(name) && name !in start && Hopeless(w, inUse, impossible, true, name)
      modifies this`impossible
      ensures Inv() && impossible == old(impossible) + {name}
    {
      hide Grounded, Recorded, Logged, TargetSet, Kept, Exhausted, Hopeless;
      ExhaustedPlus(w, inUse, impossible, refused, name);
      impossible := impossible + {name};
    }

    /** Tries the prerequisites in turn. */
    method TestPrereqs(names: seq<string>, file: string, recursing: bool, ghost explicit: seq<string>, ghost r: nat, intermedOk: bool)
      returns (v: Verdict, ideps: seq<Idep>, ghost kids: seq<Node>)
      requires Inv() && IsFor(file, recursing, explicit) && r < |w.rules| && (intermedOk ==> !w.rules[r].terminal)
      requires !intermedOk ==> recursing || log == []
      modifies this
      ensures Inv() && Goes()
      ensures (intermedOk && !v.Applies?) || v.Impossible? ==> SomeIn(names, impossible)
      ensures v.Applies? ==> KidNames(kids) == names && KidsOk(w, start, Targets(), r, ideps, kids, InUseSet(inUse), explicit)
      ensures !intermedOk ==> Rests() && (v.Applies? <==> Ready(w, Targets(), impossible, explicit, names))
      ensures !intermedOk && v.Applies? ==> AllLeaves(kids)
      decreases Free(inUse), 5
    {
      hide Inv, KidOk, KidsOk, Logged, Available, InUseSet;
      ideps, kids := [], [];
      NoKids(r, explicit);
      var k := 0;
      while k < |names|
        invariant k <= |names| && Inv() && Goes()
        invariant KidNames(kids) == names[..k]
        invariant KidsOk(w, start, Targets(), r, ideps, kids, InUseSet(inUse), explicit)
        invariant !intermedOk ==> Rests() && Ready(w, Targets(), impossible, explicit, names[..k])
        invariant !intermedOk ==> AllLeaves(kids)
      {
        label Before:
        var verdict, d, kid := TestPrereq(names[k], file, recursing, explicit, r, intermedOk);
        if !verdict.Applies? {
          return verdict, ideps, kids;
        }
        LoggedPrefix(old@Before(log), log);
        KidsStill(w, start, old@Before(Targets()), r, ideps, kids, InUseSet(inUse), explicit, Targets());
        KidsPlus(w, start, Targets(), r, ideps, kids, d, kid, InUseSet(inUse), explicit);
        ideps, kids := ideps + [d], kids + [kid];
        k := k + 1;
      }
      return Applies, ideps, kids;
    }

    lemma {:induction false} NoKids(r: nat, explicit: seq<string>)
      requires r < |w.rules|
      ensures KidsOk(w, start, Targets(), r, [], [], InUseSet(inUse), explicit)
    {
    }

    /** The prerequisites of a candidate, from the place of its stem. */
    method Prereqs(name: string, slash: int, ghost recursing: bool, c: Candidate) returns (names: seq<string>)
      requires |inUse| == |w.rules| && -1 <= slash < |name| && IsCandidate(w.rules, inUse, recursing, name, name[..slash + 1], c)
      ensures names == NamesFor(w, c, name, name[..slash + 1])
    {
      CandidateFits(w, inUse, recursing, name, name[..slash + 1], c);
      hide FitsSome, Fits, PrereqNames;
      var rule := w.rules[c.rule];
      var p := rule.targets[c.pat];
      var stem := |p.prefix|;
      var stemlen := |name| - (|p.prefix| + 1 + |p.suffix|) + 1;
      if c.checked {
        stem := stem + slash + 1;
        stemlen := stemlen - (slash + 1);
      }
      names := ExpandPrereqs(w, rule.deps, name[stem..stem + stemlen], if c.checked then name[..slash + 1] else "");
    }

    /** Tries one rule, which is in use meanwhile. */
    method TryRule(name: string, slash: int, recursing: bool, ghost explicit: seq<string>, c: Candidate, intermedOk: bool)
      returns (v: Verdict, ideps: seq<Idep>, ghost kids: seq<Node>)
      requires Inv() && -1 <= slash < |name| && IsCandidate(w.rules, inUse, recursing, name, name[..slash + 1], c)
      requires IsFor(name, recursing, explicit) && (if intermedOk then !w.rules[c.rule].terminal else recursing || log == [])
      modifies this
      ensures Inv() && Goes()
      ensures v.Applies? ==>
        KidNames(kids) == NamesFor(w, c, name, name[..slash + 1]) &&
        KidsOk(w, start, Targets(), c.rule, ideps, kids, InUseSet(inUse) + {c.rule}, explicit)
      ensures (intermedOk && !v.Applies?) || v.Impossible? ==> Blocked(w, impossible, c, name, name[..slash + 1])
      ensures !intermedOk ==> Rests() && (v.Applies? <==> Ready(w, Targets(), impossible, explicit, NamesFor(w, c, name, name[..slash + 1])))
      ensures !intermedOk && v.Applies? ==> AllLeaves(kids)
      decreases Free(inUse), 0
    {
      hide Grounded, Recorded, RuledOut, TargetSet, Kept, Logged, KidsOk, FitsSome, Ready, NamesFor;
      FreeDrops(inUse, c.rule);
      var names := Prereqs(name, slash, recursing, c);
      inUse := inUse[c.rule := true];
      assert InUseSet(inUse) == InUseSet(old(inUse)) + {c.rule};
      v, ideps, kids := TestPrereqs(names, name, recursing, explicit, c.rule, intermedOk);
      inUse := inUse[c.rule := false];
      assert inUse == old(inUse);
    }

    ghost predicate AreCandidates(l: seq<Option<Candidate>>, recursing: bool, name: string, dir: string)
      requires |inUse| == |w.rules|
      reads this
    {
      forall i :: 0 <= i < |l| && l[i].Some? ==>
        l[i].value.rule < |w.rules| && l[i].value.pat < |w.rules[l[i].value.rule].targets| &&
        IsCandidate(w.rules, inUse, recursing, name, dir, l[i].value)
    }

    /** Tries each rule in turn, and strikes out those that can never apply. */
    method TryRules(name: string, slash: int, ghost dir: string, recursing: bool, ghost explicit: seq<string>, tryrules: seq<Option<Candidate>>, intermedOk: bool)
      returns (left: seq<Option<Candidate>>, found: nat, ideps: seq<Idep>, ghost kids: seq<Node>)
      requires Inv() && -1 <= slash < |name| && dir == name[..slash + 1] && AreCandidates(tryrules, recursing, name, dir)
      requires IsFor(name, recursing, explicit) && (!intermedOk ==> recursing || log == [])
      modifies this
      ensures Inv() && Goes() && AreCandidates(left, recursing, name, dir)
      ensures found <= |left| == |tryrules| && forall i :: 0 <= i < |left| ==> left[i] == tryrules[i] || left[i].None?
      ensures found < |left| ==>
        left[found].Some? && (intermedOk ==> !w.rules[left[found].value.rule].terminal) &&
        KidNames(kids) == NamesFor(w, left[found].value, name, dir) &&
        KidsOk(w, start, Targets(), left[found].value.rule, ideps, kids, InUseSet(inUse) + {left[found].value.rule}, explicit)
      ensures !intermedOk ==> Rests() && (forall i :: 0 <= i < found ==> !old(CanUse(w, Targets(), impossible, tryrules[i], name, dir, explicit))) &&
                              (found < |left| ==> old(CanUse(w, Targets(), impossible, tryrules[found], name, dir, explicit)))
      ensures !intermedOk && found < |left| ==> AllLeaves(kids)
      ensures Struck(w, impossible, tryrules, left, name, dir)
      ensures intermedOk && found == |left| ==> NoneLeft(w, impossible, tryrules, |tryrules|, name, dir)
      decreases Free(inUse), 1
    {
      hide Inv, KidsOk, Ready, Logged, IsCandidate, NamesFor, KidNames, Blocked, NoneLeft, Struck, Exhausted, CanUse, AllLeaves, InUseSet, Free, NodeName, NoneUsable, LeftOf;
      assert |inUse| == |w.rules| by { InvSize(); }
      left, found, ideps, kids := tryrules, 0, [], [];
      NothingTried(w, impossible, tryrules, name, dir);
      ghost var targets, ruledOut := Targets(), impossible;
      NoneUsableAt(w, targets, ruledOut, tryrules, 0, name, dir, explicit);
      LeftOfAt(tryrules, left, 0);
      while found < |left|
        invariant found <= |left| == |tryrules| && Inv() && Goes()
        invariant AreCandidates(left, recursing, name, dir) && LeftOf(tryrules, left, found)
        invariant !intermedOk ==> Rests() && NoneUsable(w, targets, ruledOut, tryrules, found, name, dir, explicit)
        invariant Struck(w, impossible, tryrules, left, name, dir)
        invariant intermedOk ==> NoneLeft(w, impossible, tryrules, found, name, dir)
      {
        label Before:
        var c := left[found];
        LeftOfNext(tryrules, left, found);
        CanUseIs(w, Targets(), impossible, c, name, dir, explicit);
        if !intermedOk {
          NoneUsableNext(w, targets, ruledOut, tryrules, found, name, dir, explicit);
          NoneUsableAt(w, targets, ruledOut, tryrules, found, name, dir, explicit);
        }
        LeftOfAt(tryrules, left, found);
        if c.Some? && !(intermedOk && w.rules[c.value.rule].terminal) {
          var v;
          v, ideps, kids := TryRule(name, slash, recursing, explicit, c.value, intermedOk);
          StruckStill(w, old@Before(impossible), tryrules, left, name, dir, impossible);
          if v.Applies? {
            return;
          }
          if intermedOk {
            NoneLeftStill(w, old@Before(impossible), tryrules, found, name, dir, impossible);
          }
          if v.Impossible? {
            StruckNext(w, impossible, tryrules, left, found, name, dir);
            left := left[found := None];
          }
        }
        if intermedOk {
          NoneLeftNext(w, impossible, tryrules, found, name, dir);
        }
        found := found + 1;
      }
      NoneUsableAt(w, targets, ruledOut, tryrules, found, name, dir, explicit);
      LeftOfAt(tryrules, left, found);
    }

    lemma {:induction false} InvSize()
      requires Inv()
      ensures |inUse| == |w.rules|
    {
    }

    /** If some rule needs no intermediate file, the first such rule is used, and the search finds
        and rules out nothing else. */
    twostate predicate Prefers(name: string, explicit: seq<string>, recursing: bool, new found: Option<Entry>, new t: Tree)
      requires old(|inUse|) == |w.rules|
      reads this
    {
      forall i: nat :: old(FirstUsable(w, inUse, Targets(), impossible, i, recursing, name, explicit)) ==>
        found.Some? && log == old(log) && impossible == old(impossible) && AllLeaves(t.kids) &&
        IsOf(old(Tryable(w.rules, inUse, recursing, name, DirOf(w, name))), i, t)
    }

    /** Enters what was found for the prerequisites of a rule. */
    method EnterPrereqs(ideps: seq<Idep>, ghost kids: seq<Node>, ghost r: nat, recursing: bool, ghost explicit: seq<string>)
      requires Inv() && r < |w.rules| && KidsOk(w, start, Targets(), r, ideps, kids, InUseSet(inUse) + {r}, explicit)
      modifies this`files, this`log
      ensures Inv() && old(log) <= log
      ensures KidsOk(w, start, Targets(), r, ideps, kids, InUseSet(inUse) + {r}, explicit)
      ensures SubsLogged(kids, log)
      ensures AllLeaves(kids) ==> log == old(log)
    {
      hide Inv, KidOk, KidsOk, Logged, InUseSet;
      assert |ideps| == |kids| by { KidsSize(w, start, Targets(), r, ideps, kids, InUseSet(inUse) + {r}, explicit); }
      var k := 0;
      while k < |ideps|
        invariant k <= |ideps| && Inv() && old(log) <= log
        invariant KidsOk(w, start, Targets(), r, ideps, kids, InUseSet(inUse) + {r}, explicit)
        invariant SubsLogged(kids[..k], log)
        invariant AllLeaves(kids) ==> log == old(log)
      {
        label Before:
        KidAt(w, start, Targets(), r, ideps, kids, InUseSet(inUse) + {r}, explicit, k);
        if ideps[k].made.Some? {
          EnterIntermediate(ideps[k].name, ideps[k].made.value, kids[k].tree);
        } else if !recursing {
          EnterFiles([ideps[k].name]);
        }
        LoggedPrefix(old@Before(log), log);
        KidsStill(w, start, old@Before(Targets()), r, ideps, kids, InUseSet(inUse) + {r}, explicit, Targets());
        SubsLoggedNext(kids, k, old@Before(log), log);
        k := k + 1;
      }
      assert kids[..k] == kids;
    }

    lemma {:induction false} TryableAre(recursing: bool, name: string, dir: string)
      requires |inUse| == |w.rules|
      ensures AreCandidates(Tryable(w.rules, inUse, recursing, name, dir), recursing, name, dir)
    {
    }

    /** Tries each rule once without intermediate files, then once with them. */
    method TwoPasses(name: string, slash: int, ghost dir: string, recursing: bool, ghost explicit: seq<string>, tryrules: seq<Option<Candidate>>)
      returns (c: Option<Candidate>, ideps: seq<Idep>, ghost kids: seq<Node>)
      requires Inv() && -1 <= slash < |name| && dir == name[..slash + 1] && AreCandidates(tryrules, recursing, name, dir)
      requires IsFor(name, recursing, explicit) && (recursing || log == [])
      modifies this
      ensures Inv() && Goes()
      ensures c.Some? ==> c in tryrules && IsCandidate(w.rules, inUse, recursing, name, dir, c.value)
      ensures c.Some? ==> KidNames(kids) == NamesFor(w, c.value, name, dir) &&
                          KidsOk(w, start, Targets(), c.value.rule, ideps, kids, InUseSet(inUse) + {c.value.rule}, explicit)
      ensures forall i: nat :: old(FirstIn(w, Targets(), impossible, tryrules, i, name, dir, explicit)) ==> i < |tryrules| && c.Some? && c == tryrules[i] && Rests() && AllLeaves(kids)
      ensures c.None? ==> NoneLeft(w, impossible, tryrules, |tryrules|, name, dir)
      decreases Free(inUse), 2
    {
      hide Inv, KidsOk, Logged, InUseSet, NamesFor, KidNames, CanUse, AllLeaves, IsCandidate, Free;
      InvSize();
      var left, i;
      left, i, ideps, kids := TryRules(name, slash, dir, recursing, explicit, tryrules, false);
      if i < |left| {
        assert left[i] == tryrules[i];
        return left[i], ideps, kids;
      }
      assert forall k: nat :: !old(FirstIn(w, Targets(), impossible, tryrules, k, name, dir, explicit));
      left, i, ideps, kids := TryRules(name, slash, dir, recursing, explicit, left, true);
      if i < |left| {
        assert left[i] == tryrules[i];
        return left[i], ideps, kids;
      }
      return None, ideps, kids;
    }

    /** Searches for a rule to make `name`. */
    method PatternSearch(name: string, recursing: bool, ghost explicit: seq<string>) returns (found: Option<Entry>, ghost t: Tree)
      requires Inv() && IsFor(name, recursing, explicit) && (recursing || log == [])
      modifies this
      ensures Inv() && Goes()
      ensures found.Some? ==> t.name == name && Derives(w, Targets(), t, InUseSet(inUse), explicit, !recursing)
      ensures found.Some? ==> Settled(w, Targets(), t, explicit) && Filled(w, start, log, name, recursing, explicit, t, found.value)
      ensures found.Some? ==> Chosen(old(Tryable(w.rules, inUse, recursing, name, DirOf(w, name))), t)
      ensures Prefers(name, explicit, recursing, found, t)
      ensures found.None? ==> Hopeless(w, inUse, impossible, recursing, name)
      decreases Free(inUse), 3
    {
      hide Inv, KidsOk, FitsSome, Logged, Derives, InUseSet, NamesFor, KidNames, Tryable, Realises, FirstIn, AllLeaves, IsDir, IsCandidate, Free, DirOf, EntryOf, KidOk, Filled, Settled,
           Available, CanUse, Grounded, Recorded, Kept, RuledOut, TargetSet, StemRebuilds, NodeName, Barred, Blocked, Exhausted;
      InvSize();
      var slash := -1;
      if !w.archive(name) {
        slash := FindLastSlash(name);
      }
      OneDir(w, name, name[..slash + 1], DirOf(w, name));
      var tryrules := CollectRules(w.rules, inUse, recursing, name, slash);
      ghost var dir := name[..slash + 1];
      TryableAre(recursing, name, dir);
      assert forall k: nat :: old(FirstUsable(w, inUse, Targets(), impossible, k, recursing, name, explicit)) ==> FirstIn(w, Targets(), impossible, tryrules, k, name, dir, explicit);
      var c, ideps, kids := TwoPasses(name, slash, dir, recursing, explicit, tryrules);
      if c.None? {
        t := Built(name, 0, 0, "", "", []);
        return None, t;
      }
      found, t := Conclude(name, slash, recursing, explicit, c.value, ideps, kids);
      ghost var k :| 0 <= k < |tryrules| && tryrules[k] == c;
      assert IsOf(tryrules, k, t);
    }

    /** Fills in the file from the rule that was found for it. */
    method Conclude(name: string, slash: int, recursing: bool, ghost explicit: seq<string>, c: Candidate, ideps: seq<Idep>, ghost kids: seq<Node>)
      returns (found: Option<Entry>, ghost t: Tree)
      requires Inv() && IsFor(name, recursing, explicit) && -1 <= slash < |name| && IsDir(w, name, name[..slash + 1])
      requires IsCandidate(w.rules, inUse, recursing, name, name[..slash + 1], c)
      requires KidNames(kids) == NamesFor(w, c, name, name[..slash + 1])
      requires KidsOk(w, start, Targets(), c.rule, ideps, kids, InUseSet(inUse) + {c.rule}, explicit)
      modifies this`files, this`log
      ensures Inv() && old(log) <= log
      ensures t.name == name && t.rule == c.rule && t.pat == c.pat && t.kids == kids
      ensures Derives(w, Targets(), t, InUseSet(inUse), explicit, !recursing) && Settled(w, Targets(), t, explicit)
      ensures found.Some? && Filled(w, start, log, name, recursing, explicit, t, found.value)
      ensures |found.value.deps| >= |kids| && forall k :: 0 <= k < |kids| ==> found.value.deps[k] == NodeName(kids[k])
      ensures recursing || name !in Logged(log) ==> found.value.deps[|kids|..] == explicit
      ensures found.value.cmds == Some(c.rule)
      ensures found.value.stem.Some? && StemRebuilds(w, c.rule, c.pat, found.value.stem.value, name)
      ensures AllLeaves(kids) ==> log == old(log)
    {
      hide Inv, KidOk, KidsOk, FitsSome, Logged, Derives, InUseSet, IsDir, PrereqNames, RuleFits, NamesFor, StemRebuilds;
      InvSize();
      ghost var dir := name[..slash + 1];
      CandidateFits(w, inUse, recursing, name, dir, c);
      var p := w.rules[c.rule].targets[c.pat];
      var stemlen := |name| - (|p.prefix| + 1 + |p.suffix|) + 1;
      var stem := |p.prefix|;
      if c.checked {
        stem := stem + slash + 1;
        stemlen := stemlen - (slash + 1);
      }
      assert name[stem..stem + stemlen] == StemIn(p, dir, name);
      CandidateRuleFits(w, inUse, recursing, name, dir, c, kids);
      t := Built(name, c.rule, c.pat, dir, name[stem..stem + stemlen], kids);
      Assemble(w, start, Targets(), t, ideps, InUseSet(inUse), explicit, !recursing);
      var had := ExplicitDeps(name, recursing, explicit);
      EnterPrereqs(ideps, kids, c.rule, recursing, explicit);
      LoggedPrefix(old(log), log);
      DerivesStill(w, old(Targets()), t, InUseSet(inUse), explicit, !recursing, Targets(), InUseSet(inUse));
      NowSettled(w, start, log, t, ideps, InUseSet(inUse) + {c.rule}, explicit);
      var deps := IdepNames(ideps);
      IdepNamesAre(w, start, Targets(), c.rule, ideps, kids, InUseSet(inUse) + {c.rule}, explicit, deps);
      var fullStem := (if c.checked then name[..slash + 1] else "") + name[stem..stem + stemlen];
      found := Some(Entry(deps + had, Some(c.rule), Some(fullStem), true));
      assert Realises(w, t, found.value, had);
      FilledShows(w, start, log, name, recursing, explicit, t, found.value, Targets(), InUseSet(inUse), !recursing);
    }

    constructor (w: World, files: map<string, Entry>)
      ensures this.w == w && this.files == files && impossible == {}
      ensures |inUse| == |w.rules| && InUseSet(inUse) == {}
    {
      this.w, this.files, impossible := w, files, {};
      inUse := seq(|w.rules|, _ => false);
      start, before, refused, log := {}, files, {}, [];
    }

    /** Looks for an implicit rule for a file of the table.  When one is found, the file gets its
        prerequisites, stem and commands, and behind them it keeps the prerequisites it had. */
    method TryImplicitRule(name: string) returns (ok: bool, ghost t: Tree)
      requires |inUse| == |w.rules| && InUseSet(inUse) == {} && name in files
      modifies this
      ensures inUse == old(inUse) && old(impossible) <= impossible && RuledOut(w, impossible, old(impossible), start)
      ensures start == old(TargetSet(files)) && Grounded(w, start, log)
      ensures forall n :: n in start && n != name ==> n in files && files[n] == old(files)[n]
      ensures forall n :: n in Logged(log) && n != name ==> RecordOf(w, files, log, n)
      ensures TargetSet(files) == Targets() + if ok then {name} else {}
      ensures ok ==> t.name == name && Derives(w, Targets(), t, {}, old(files[name].deps), true)
      ensures ok ==> Settled(w, Targets(), t, old(files[name].deps))
      ensures ok ==> name in files && Filled(w, start, log, name, false, old(files[name].deps), t, files[name])
      ensures ok ==> |files[name].deps| >= |t.kids| && forall k :: 0 <= k < |t.kids| ==> files[name].deps[k] == NodeName(t.kids[k])
      ensures ok && name !in Logged(log) ==> files[name].deps[|t.kids|..] == old(files[name].deps)
      ensures ok ==> files[name].cmds == Some(t.rule)
      ensures ok ==> files[name].stem.Some? && StemRebuilds(w, t.rule, t.pat, files[name].stem.value, name)
      ensures ok ==> Chosen(Tryable(w.rules, inUse, false, name, DirOf(w, name)), t)
      ensures !ok ==> Hopeless(w, inUse, impossible, false, name)
      ensures Exhausted(w, impossible, old(impossible))
      ensures forall i: nat :: old(FirstUsable(w, inUse, TargetSet(files), impossible, i, false, name, files[name].deps)) ==>
        ok && log == [] && impossible == old(impossible) && AllLeaves(t.kids) &&
        IsOf(Tryable(w.rules, inUse, false, name, DirOf(w, name)), i, t)
    {
      hide Inv, IsFor, Grounded, Recorded, Logged, TargetSet, RuledOut, Exhausted, Hopeless, Kept, InUseSet, Derives, Settled, Realises, Available;
      hide Filled, FirstUsable, Tryable, StemRebuilds, Chosen, AllLeaves, RecordOf, IsOf, DirOf, Free, EntryOf, CanUse, FirstIn;
      start, before, refused, log := TargetSet(files), files, impossible, [];
      SearchBegins(name);
      ghost var explicit := files[name].deps;
      var found;
      found, t := PatternSearch(name, false, explicit);
      SearchEnds(found, name, explicit, t);
      ok := found.Some?;
      Ending(w, files, before, start, log, name, found);
      if ok {
        FilledShows(w, start, log, name, false, explicit, t, found.value, Targets(), {}, true);
        files := files[name := found.value];
      }
    }

    lemma {:induction false} SearchBegins(name: string)
      requires |inUse| == |w.rules| && name in files
      requires start == TargetSet(files) && before == files && refused == impossible && log == []
      ensures Inv() && IsFor(name, false, files[name].deps) && Targets() == start
    {
      Beginning(w, files);
      hide Grounded, Recorded, Logged, TargetSet, Kept, Available;
    }

    /** What the invariant says when the search is over. */
    lemma {:induction false} SearchEnds(found: Option<Entry>, name: string, explicit: seq<string>, t: Tree)
      requires Inv() && (found.Some? ==> Filled(w, start, log, name, false, explicit, t, found.value))
      ensures Grounded(w, start, log) && Recorded(w, files, log) && Kept(files, before, log) && TargetSet(files) == start + Logged(log)
      ensures RuledOut(w, impossible, refused, start) && Exhausted(w, impossible, refused) && Targets() == start + Logged(log)
      ensures found.Some? ==> found.value.isTarget
    {
      hide Grounded, Recorded, Logged, TargetSet, RuledOut, Exhausted, Kept;
    }
  }
}
