/** What an implicit-rule search may answer: derivations of a file from pattern rules. */
module Derivations {
  import opened FileNames
  import opened PatternRules

  /** What a search can ask about the outside: the rules, which files exist or are found along
      VPATH, which names belong to archives, and the names a prerequisite word stands for once
      its stem is in place. */
  datatype World = World(rules: seq<Rule>, exists_: string -> bool, vpath: string -> bool, archive: string -> bool, glob: string -> seq<string>)

  /** The directory part of a name that patterns without a slash are not matched against. */
  ghost predicate IsDir(w: World, name: string, dir: string) {
    dir <= name &&
    if w.archive(name) || '/' !in name || name[|name| - 1] == '/' then dir == ""
    else dir != "" && dir[|dir| - 1] == '/' && '/' !in name[|dir|..]
  }

  lemma {:induction false} OneDir(w: World, name: string, d: string, e: string)
    requires IsDir(w, name, d) && IsDir(w, name, e)
    ensures d == e
  {
    assert e != "" ==> name[|e| - 1] == '/';
    assert d != "" ==> name[|d| - 1] == '/';
    assert forall k :: |d| <= k < |name| ==> name[k] == name[|d|..][k - |d|];
    assert forall k :: |e| <= k < |name| ==> name[k] == name[|e|..][k - |e|];
  }

  function DirOf(w: World, name: string): (dir: string)
    ensures IsDir(w, name, dir)
  {
    if w.archive(name) || '/' !in name || name[|name| - 1] == '/' then ""
    else
      assert name[0..] == name;
      name[..AfterSlash(name)]
  }

  // ----- prerequisite names

  function PercentAt(word: string): (n: nat)
    ensures n <= |word| && '%' !in word[..n] && (n < |word| ==> word[n] == '%')
  {
    if word == "" || word[0] == '%' then 0 else 1 + PercentAt(word[1..])
  }

  function Prefixed(dir: string, names: seq<string>): (r: seq<string>)
    ensures |r| == |names| && forall i :: 0 <= i < |r| ==> r[i] == dir + names[i]
  {
    seq(|names|, i requires 0 <= i < |names| => dir + names[i])
  }

  /** A word with a percent sign takes the stem there, and lies in the directory of the target. */
  function WordNames(w: World, word: string, stem: string, dir: string): seq<string> {
    var n := PercentAt(word);
    if n < |word| then Prefixed(dir, w.glob(word[..n] + stem + word[n + 1..])) else w.glob(word)
  }

  function PrereqNames(w: World, words: seq<string>, stem: string, dir: string): seq<string> {
    if words == [] then [] else WordNames(w, words[0], stem, dir) + PrereqNames(w, words[1..], stem, dir)
  }

  /** The names of a rule's prerequisites, word by word: a word without a percent sign stands for itself;
      otherwise the stem goes where the first one is, and the directory in front of every name. */
  lemma {:induction false} NamesInOrder(w: World, words: seq<string>, before: string, after: string, stem: string, dir: string)
    requires '%' !in before
    ensures PrereqNames(w, [], stem, dir) == []
    ensures PrereqNames(w, words + [before], stem, dir) == PrereqNames(w, words, stem, dir) + w.glob(before)
    ensures var names := w.glob(before + stem + after);
            PrereqNames(w, words + [before + "%" + after], stem, dir) ==
            PrereqNames(w, words, stem, dir) + seq(|names|, i requires 0 <= i < |names| => dir + names[i])
  {
    var pattern := before + "%" + after;
    PercentIs(before, |before|);
    assert pattern[..|before|] == before && pattern[|before| + 1..] == after;
    PercentIs(pattern, |before|);
    NamesLast(w, words, before, stem, dir);
    NamesLast(w, words, pattern, stem, dir);
  }

  lemma {:induction false} PercentIs(word: string, n: nat)
    requires n <= |word| && '%' !in word[..n] && (n < |word| ==> word[n] == '%')
    ensures PercentAt(word) == n
  {
    var m := PercentAt(word);
    assert m < |word| ==> word[m] == '%';
    assert forall k :: 0 <= k < n ==> word[k] == word[..n][k];
    assert forall k :: 0 <= k < m ==> word[k] == word[..m][k];
  }

  lemma {:induction false} NamesLast(w: World, words: seq<string>, word: string, stem: string, dir: string)
    ensures PrereqNames(w, words + [word], stem, dir) == PrereqNames(w, words, stem, dir) + WordNames(w, word, stem, dir)
  {
    hide WordNames;
    if words == [] {
      assert words + [word] == [word] && [word][1..] == [];
    } else {
      assert (words + [word])[1..] == words[1..] + [word];
      NamesLast(w, words[1..], word, stem, dir);
    }
  }

  // ----- derivations

  /** A file made by a rule: the rule, which of its targets fits, the directory set aside, the
      stem, and its prerequisites.  `Sub` is an intermediate file. */
  datatype Tree = Built(name: string, rule: nat, pat: nat, dir: string, stem: string, kids: seq<Node>)
  datatype Node = Leaf(name: string) | Sub(tree: Tree)

  function NodeName(n: Node): string {
    match n case Leaf(name) => name case Sub(t) => t.name
  }

  function KidNames(kids: seq<Node>): (r: seq<string>)
    ensures |r| == |kids| && forall i :: 0 <= i < |r| ==> r[i] == NodeName(kids[i])
  {
    seq(|kids|, i requires 0 <= i < |kids| => NodeName(kids[i]))
  }

  /** A prerequisite that needs no rule: mentioned for the file anyway, a target, an existing
      file, or one on the search path. */
  predicate Available(w: World, targets: set<string>, explicit: seq<string>, name: string) {
    name in explicit || name in targets || w.exists_(name) || w.vpath(name)
  }

  /** The rule is one that may make this file: its target with the stem is the name again, it has
      commands, no search above is trying it, and it makes an intermediate file by the pattern "%"
      only if it is terminal. */
  ghost predicate RuleFits(w: World, t: Tree, avoid: set<nat>, top: bool) {
    t.rule < |w.rules| && t.rule !in avoid && t.pat < |w.rules[t.rule].targets| && w.rules[t.rule].hasCmds &&
    Eligible(w.rules[t.rule], t.pat, !top) && IsDir(w, t.name, t.dir) &&
    Fits(w.rules[t.rule].targets[t.pat], t.dir, t.name, t.stem) &&
    KidNames(t.kids) == PrereqNames(w, w.rules[t.rule].deps, t.stem, DirPart(w.rules[t.rule].targets[t.pat], t.dir))
  }

  /** A derivation of t.name, with `targets` the files that are known to be targets. */
  ghost predicate Derives(w: World, targets: set<string>, t: Tree, avoid: set<nat>, explicit: seq<string>, top: bool)
    decreases t, 1
  {
    RuleFits(w, t, avoid, top) && forall i :: 0 <= i < |t.kids| ==> Supported(w, targets, t, i, avoid, explicit)
  }

  ghost predicate Supported(w: World, targets: set<string>, t: Tree, i: nat, avoid: set<nat>, explicit: seq<string>)
    requires i < |t.kids| && t.rule < |w.rules|
    decreases t, 0
  {
    match t.kids[i]
    case Leaf(name) => Available(w, targets, explicit, name)
    case Sub(s) => !w.rules[t.rule].terminal && Derives(w, targets, s, avoid + {t.rule}, [], false)
  }

  /** More targets and fewer rules to avoid leave a derivation one. */
  lemma {:induction false} DerivesStill(w: World, targets: set<string>, t: Tree, avoid: set<nat>, explicit: seq<string>, top: bool,
                                        targets': set<string>, avoid': set<nat>)
    requires Derives(w, targets, t, avoid, explicit, top) && targets <= targets' && avoid' <= avoid
    ensures Derives(w, targets', t, avoid', explicit, top)
    decreases t
  {
    forall i | 0 <= i < |t.kids|
      ensures Supported(w, targets', t, i, avoid', explicit)
    {
      assert Supported(w, targets, t, i, avoid, explicit);
      if t.kids[i].Sub? {
        DerivesStill(w, targets, t.kids[i].tree, avoid + {t.rule}, [], false, targets', avoid' + {t.rule});
      }
    }
  }

  /** The rules along a way down a derivation. */
  ghost predicate IsPath(t: Tree, path: seq<nat>)
    decreases |path|
  {
    path != [] && path[0] == t.rule &&
    (|path| > 1 ==> exists i :: 0 <= i < |t.kids| && t.kids[i].Sub? && IsPath(t.kids[i].tree, path[1..]))
  }

  /** No rule repeats along a way down, so no way is longer than the number of rules. */
  lemma {:induction false} NoRuleRepeats(w: World, targets: set<string>, t: Tree, avoid: set<nat>, explicit: seq<string>, top: bool, path: seq<nat>)
    requires Derives(w, targets, t, avoid, explicit, top) && IsPath(t, path)
    ensures forall i, j :: 0 <= i < j < |path| ==> path[i] != path[j]
    ensures forall i :: 0 <= i < |path| ==> path[i] < |w.rules| && path[i] !in avoid
    decreases |path|
  {
    hide *;
    var kid := WayDown(w, targets, t, avoid, explicit, top, path);
    if kid.Sub? {
      NoRuleRepeats(w, targets, kid.tree, avoid + {t.rule}, [], false, path[1..]);
      assert forall j :: 1 <= j < |path| ==> path[j] == path[1..][j - 1];
    }
  }

  /** One step of a way down; at its end, a leaf. */
  lemma {:induction false} WayDown(w: World, targets: set<string>, t: Tree, avoid: set<nat>, explicit: seq<string>, top: bool, path: seq<nat>)
      returns (kid: Node)
    requires Derives(w, targets, t, avoid, explicit, top) && IsPath(t, path)
    ensures path != [] && path[0] == t.rule < |w.rules| && t.rule !in avoid && (kid.Sub? <==> |path| > 1)
    ensures kid.Sub? ==> Derives(w, targets, kid.tree, avoid + {t.rule}, [], false) && IsPath(kid.tree, path[1..])
  {
    kid := Leaf(t.name);
    assert RuleFits(w, t, avoid, top);
    if |path| > 1 {
      var i :| 0 <= i < |t.kids| && t.kids[i].Sub? && IsPath(t.kids[i].tree, path[1..]);
      assert Supported(w, targets, t, i, avoid, explicit);
      kid := t.kids[i];
    }
  }

  ghost function Below(n: nat): (s: set<nat>)
    ensures |s| == n && forall k: nat :: k in s <==> k < n
  {
    if n == 0 then {} else Below(n - 1) + {n - 1}
  }

  lemma {:induction false} SeqInSet(path: seq<nat>, all: set<nat>)
    requires forall i, j :: 0 <= i < j < |path| ==> path[i] != path[j]
    requires forall i :: 0 <= i < |path| ==> path[i] in all
    ensures |path| <= |all|
  {
    if path != [] {
      assert forall j :: 0 <= j < |path[1..]| ==> path[1..][j] in all - {path[0]};
      SeqInSet(path[1..], all - {path[0]});
    }
  }

  /** A derivation is at most as deep as there are rules. */
  lemma {:induction false} PathsAreShort(w: World, targets: set<string>, t: Tree, explicit: seq<string>, path: seq<nat>)
    requires Derives(w, targets, t, {}, explicit, true) && IsPath(t, path)
    ensures |path| <= |w.rules|
  {
    NoRuleRepeats(w, targets, t, {}, explicit, true, path);
    SeqInSet(path, Below(|w.rules|));
  }

  /** The files a derivation rests on. */
  ghost predicate RestsOn(t: Tree, name: string)
    decreases t
  {
    exists i :: 0 <= i < |t.kids| &&
      match t.kids[i] case Leaf(n) => n == name case Sub(s) => RestsOn(s, name)
  }

  /** They all are there. */
  lemma {:induction false} LeavesAvailable(w: World, targets: set<string>, t: Tree, avoid: set<nat>, explicit: seq<string>, top: bool, name: string)
    requires Derives(w, targets, t, avoid, explicit, top) && RestsOn(t, name)
    ensures name in explicit || name in targets || w.exists_(name) || w.vpath(name)
    decreases t
  {
    var i :| 0 <= i < |t.kids| && match t.kids[i] case Leaf(n) => n == name case Sub(s) => RestsOn(s, name);
    assert Supported(w, targets, t, i, avoid, explicit);
    if t.kids[i].Sub? {
      LeavesAvailable(w, targets, t.kids[i].tree, avoid + {t.rule}, [], false, name);
    }
  }
}
