/** The jobserver: a tree of make processes that share one pipe of tokens.  Each process moves by
    the steps of its own job counter; the steps of all processes interleave freely. */
module JobserverTree {
  import opened Wrappers
  import opened SetSizes

  /** What a job counter can do: start a job on the free token, start one on a token read from
      the pipe, end a job writing its token back, end the last job. */
  datatype TokenEvent = UseFree | ReadToken | WriteToken | DropFree

  /** The counter after an event, if the event is possible at all. */
  function LocalStep(tokens: nat, e: TokenEvent): Option<nat> {
    match e
    case UseFree => if tokens == 0 then Some(1) else None
    case ReadToken => if tokens > 0 then Some(tokens + 1) else None
    case WriteToken => if tokens > 1 then Some(tokens - 1) else None
    case DropFree => if tokens == 1 then Some(0) else None
  }

  /** A job counter's whole history, from zero. */
  function Replay(log: seq<TokenEvent>): Option<nat> {
    if log == [] then Some(0)
    else match Replay(log[..|log| - 1])
      case None => None
      case Some(n) => LocalStep(n, log[|log| - 1])
  }

  lemma {:induction false} ReplayNext(log: seq<TokenEvent>, e: TokenEvent)
    ensures Replay(log + [e]) == match Replay(log) case None => None case Some(n) => LocalStep(n, e)
  {
    assert (log + [e])[..|log + [e]| - 1] == log;
  }

  /** A running make: its counter, the process that started it as one of its jobs, and its level
      of recursion, one more than its parent's. */
  datatype Proc = Proc(tokens: nat, parent: nat, level: nat)

  datatype State = State(procs: map<nat, Proc>, pipe: nat)

  /** The top-level make and the pipe set up for `-j slots`. */
  const ROOT: nat := 0

  function Initial(slots: nat): State
    requires slots > 1
  {
    State(map[ROOT := Proc(0, ROOT, 0)], slots - 1)
  }

  /** The processes started by `p` and still running. */
  function Subs(s: State, p: nat): set<nat> {
    set q | q in s.procs && q != ROOT && s.procs[q].parent == p
  }

  datatype Step =
    | Token(p: nat, e: TokenEvent)   // process p moves its counter
    | Spawn(p: nat, q: nat)          // one of p's jobs turns out to be a make, q
    | Exit(q: nat, writes: bool)     // q ends; with status 2 it writes the tokens it still counts

  /** A step is possible: the pipe has a token to read; a job that is a live sub-make is not
      ended, and does not start a second one; a make that ends has waited for its children, but
      may still count jobs that wait for the load to drop. */
  predicate Enabled(s: State, t: Step) {
    match t
    case Token(p, e) =>
      p in s.procs && LocalStep(s.procs[p].tokens, e).Some? && (e.ReadToken? ==> s.pipe > 0) &&
      (e.WriteToken? || e.DropFree? ==> |Subs(s, p)| < s.procs[p].tokens)
    case Spawn(p, q) => p in s.procs && q !in s.procs && q != ROOT && |Subs(s, p)| < s.procs[p].tokens
    case Exit(q, _) => q in s.procs && q != ROOT && Subs(s, q) == {}
  }

  function Next(s: State, t: Step): State
    requires Enabled(s, t)
  {
    match t
    case Token(p, e) =>
      State(s.procs[p := s.procs[p].(tokens := LocalStep(s.procs[p].tokens, e).value)],
            match e case ReadToken => s.pipe - 1 case WriteToken => s.pipe + 1 case _ => s.pipe)
    case Spawn(p, q) => s.(procs := s.procs[q := Proc(0, p, s.procs[p].level + 1)])
    case Exit(q, writes) => State(s.procs - {q}, PipeAfter(s, q, writes))
  }

  /** The pipe when `q` has ended: with status 2 it writes every token it still counts, the free one
      included, and otherwise none. */
  function PipeAfter(s: State, q: nat, writes: bool): nat
    requires q in s.procs
  {
    s.pipe + if writes then s.procs[q].tokens else 0
  }

  /** The state after an interleaving of steps, if every step was possible when it came. */
  function After(slots: nat, steps: seq<Step>): Option<State>
    requires slots > 1
  {
    if steps == [] then Some(Initial(slots))
    else match After(slots, steps[..|steps| - 1])
      case None => None
      case Some(s) => if Enabled(s, steps[|steps| - 1]) then Some(Next(s, steps[|steps| - 1])) else None
  }

  // ----- what is counted

  /** Tokens a counter holds beyond the free one. */
  function Held(tokens: nat): nat {
    if tokens == 0 then 0 else tokens - 1
  }

  /** What the end of a process that still counts so many tokens does to their number: written back,
      the free one is one too many; otherwise those from the pipe are lost. */
  function EndChange(tokens: nat, writes: bool): int {
    if !writes then 0 - Held(tokens) else if tokens == 0 then 0 else 1
  }

  function StepChange(s: State, t: Step): int
    requires Enabled(s, t)
  {
    match t case Exit(q, writes) => EndChange(s.procs[q].tokens, writes) case _ => 0
  }

  /** How many tokens a run has made, less those it has lost. */
  function Surplus(slots: nat, steps: seq<Step>): int
    requires slots > 1
  {
    if steps == [] then 0
    else match After(slots, steps[..|steps| - 1])
      case None => 0
      case Some(s) =>
        Surplus(slots, steps[..|steps| - 1]) + if Enabled(s, steps[|steps| - 1]) then StepChange(s, steps[|steps| - 1]) else 0
  }

  ghost function SumHeld(m: map<nat, Proc>): nat
    decreases |m|
  {
    if m == map[] then 0
    else var k :| k in m; Held(m[k].tokens) + SumHeld(m - {k})
  }

  ghost function SumTokens(m: map<nat, Proc>): nat
    decreases |m|
  {
    if m == map[] then 0
    else var k :| k in m; m[k].tokens + SumTokens(m - {k})
  }

  /** The processes that have no job at the moment. */
  function Idle(m: map<nat, Proc>): set<nat> {
    set q | q in m && m[q].tokens == 0
  }

  /** The jobs of the processes `ps` that are not live sub-makes. */
  ghost function SumLeaves(s: State, ps: set<nat>): int
    requires ps <= s.procs.Keys
    decreases |ps|
  {
    if ps == {} then 0
    else var p :| p in ps; (s.procs[p].tokens - |Subs(s, p)|) + SumLeaves(s, ps - {p})
  }

  ghost function LeafJobs(s: State): int {
    SumLeaves(s, s.procs.Keys)
  }

  lemma {:induction false} MapMinus(m: map<nat, Proc>, k: nat, l: nat)
    requires k in m && l in m && k != l
    ensures l in m - {k} && |m - {k}| == |m| - 1 && m - {k} - {l} == m - {l} - {k}
  {
    assert (m - {k}).Keys == m.Keys - {k};
  }

  /** The sums do not depend on the order of summation. */
  lemma {:induction false} SumSplit(m: map<nat, Proc>, k: nat)
    requires k in m
    ensures SumHeld(m) == Held(m[k].tokens) + SumHeld(m - {k})
    ensures SumTokens(m) == m[k].tokens + SumTokens(m - {k})
    decreases |m|
  {
    var a :| a in m && SumHeld(m) == Held(m[a].tokens) + SumHeld(m - {a});
    if a != k {
      MapMinus(m, a, k);
      MapMinus(m, k, a);
      SumSplit(m - {a}, k);
      SumSplit(m - {k}, a);
    }
    var b :| b in m && SumTokens(m) == m[b].tokens + SumTokens(m - {b});
    if b != k {
      MapMinus(m, b, k);
      MapMinus(m, k, b);
      SumSplit(m - {b}, k);
      SumSplit(m - {k}, b);
    }
  }

  lemma {:induction false} SumUpdate(m: map<nat, Proc>, k: nat, p: Proc)
    ensures SumHeld(m[k := p]) == SumHeld(m - {k}) + Held(p.tokens)
    ensures SumTokens(m[k := p]) == SumTokens(m - {k}) + p.tokens
  {
    SumSplit(m[k := p], k);
    assert m[k := p] - {k} == m - {k};
  }

  lemma {:induction false} SumAbsent(m: map<nat, Proc>, k: nat)
    requires k !in m
    ensures m - {k} == m
  {
  }

  /** Jobs are the free ones of the busy makes plus the tokens taken from the pipe. */
  lemma {:induction false} TokensAreHeldPlusBusy(m: map<nat, Proc>)
    ensures SumTokens(m) == SumHeld(m) + |m| - |Idle(m)|
    decreases |m|
  {
    hide SumHeld, SumTokens;
    if m == map[] {
      assert Idle(m) == {};
      EmptySums();
    } else {
      var k :| k in m;
      OneLess(m, k);
      hide *;
      SumSplit(m, k);
      TokensAreHeldPlusBusy(m - {k});
      HeldOrIdle(m[k].tokens);
    }
  }

  lemma {:induction false} OneLess(m: map<nat, Proc>, k: nat)
    requires k in m
    ensures |m - {k}| == |m| - 1 && |Idle(m)| == |Idle(m - {k})| + if m[k].tokens == 0 then 1 else 0
  {
    assert (m - {k}).Keys == m.Keys - {k};
    assert Idle(m) == Idle(m - {k}) + (if m[k].tokens == 0 then {k} else {});
  }

  lemma {:induction false} HeldOrIdle(tokens: nat)
    ensures tokens == Held(tokens) + if tokens == 0 then 0 else 1
  {
  }

  lemma {:induction false} EmptySums()
    ensures SumHeld(map[]) == 0 && SumTokens(map[]) == 0
  {
  }

  // ----- the invariant

  ghost predicate HangsOn(s: State, q: nat, p: nat) {
    q in s.procs && p in s.procs && s.procs[q].level == s.procs[p].level + 1
  }

  /** The processes form a tree, and each live sub-make occupies a job of its parent. */
  ghost predicate Tree(s: State) {
    ROOT in s.procs &&
    (forall q :: q in s.procs && q != ROOT ==> HangsOn(s, q, s.procs[q].parent)) &&
    (forall p :: p in s.procs ==> |Subs(s, p)| <= s.procs[p].tokens)
  }

  /** There are tokens for so many slots, the free one of the root included. */
  ghost predicate Conserved(slots: int, s: State) {
    s.pipe + SumHeld(s.procs) == slots - 1
  }

  ghost predicate Inv(slots: int, s: State) {
    Conserved(slots, s) && Tree(s)
  }

  lemma {:induction false} InvInitial(slots: nat)
    requires slots > 1
    ensures Inv(slots, Initial(slots))
  {
    var s := Initial(slots);
    SumSplit(s.procs, ROOT);
    assert s.procs - {ROOT} == map[];
    assert Subs(s, ROOT) == {};
  }

  /** One step of one process conserves the tokens, unless it is the end of one that still counts
      some... */
  lemma {:induction false} StepConserves(slots: int, s: State, t: Step)
    requires Conserved(slots, s) && Enabled(s, t)
    ensures Conserved(slots + StepChange(s, t), Next(s, t))
  {
    match t {
      case Token(p, e) =>
        SumSplit(s.procs, p);
        SumUpdate(s.procs, p, Next(s, t).procs[p]);
      case Spawn(p, q) =>
        SumAbsent(s.procs, q);
        SumUpdate(s.procs, q, Next(s, t).procs[q]);
      case Exit(q, _) =>
        SumSplit(s.procs, q);
    }
  }

  /** ... and keeps the tree. */
  lemma {:induction false} TokenKeepsTree(s: State, p: nat, e: TokenEvent)
    requires Tree(s) && Enabled(s, Token(p, e))
    ensures Tree(Next(s, Token(p, e)))
  {
    var s' := Next(s, Token(p, e));
    SubsAfterToken(s, p, e);
    TokenChanges(s, p, e);
    hide Subs, Enabled, Next, LocalStep;
    forall q | q in s'.procs && q != ROOT
      ensures HangsOn(s', q, s'.procs[q].parent)
    {
      assert HangsOn(s, q, s.procs[q].parent);
    }
    forall r | r in s'.procs
      ensures |Subs(s', r)| <= s'.procs[r].tokens
    {
      assert |Subs(s, r)| <= s.procs[r].tokens;
    }
  }

  lemma {:induction false} TokenChanges(s: State, p: nat, e: TokenEvent)
    requires Enabled(s, Token(p, e)) && |Subs(s, p)| <= s.procs[p].tokens
    ensures var s' := Next(s, Token(p, e));
            s'.procs.Keys == s.procs.Keys && |Subs(s, p)| <= s'.procs[p].tokens &&
            forall r :: r in s.procs ==> s'.procs[r].parent == s.procs[r].parent && s'.procs[r].level == s.procs[r].level &&
                                         (r != p ==> s'.procs[r].tokens == s.procs[r].tokens)
  {
    hide Subs;
  }

  lemma {:induction false} SubsAfterToken(s: State, p: nat, e: TokenEvent)
    requires Enabled(s, Token(p, e))
    ensures forall r :: r in s.procs ==> Subs(Next(s, Token(p, e)), r) == Subs(s, r)
  {
  }

  lemma {:induction false} SpawnKeepsTree(s: State, p: nat, q: nat)
    requires Tree(s) && Enabled(s, Spawn(p, q))
    ensures Tree(Next(s, Spawn(p, q)))
  {
    var s' := Next(s, Spawn(p, q));
    forall r | r in s'.procs && r != ROOT
      ensures HangsOn(s', r, s'.procs[r].parent)
    {
      assert r != q ==> HangsOn(s, r, s.procs[r].parent);
    }
    hide HangsOn, Subs;
    forall r | r in s'.procs
      ensures |Subs(s', r)| <= s'.procs[r].tokens
    {
      SubsAfterSpawn(s, p, q, r);
    }
  }

  lemma {:induction false} SubsAfterSpawn(s: State, p: nat, q: nat, r: nat)
    requires Tree(s) && Enabled(s, Spawn(p, q)) && (r == q || r in s.procs)
    ensures |Subs(Next(s, Spawn(p, q)), r)| <= Next(s, Spawn(p, q)).procs[r].tokens
  {
    var s' := Next(s, Spawn(p, q));
    if r == q {
      NoOrphans(s, q);
      assert Subs(s', q) == {};
    } else if r == p {
      assert Subs(s', p) == Subs(s, p) + {q};
    } else {
      assert Subs(s', r) == Subs(s, r);
    }
  }

  /** A process that is not there is nobody's parent. */
  lemma {:induction false} NoOrphans(s: State, q: nat)
    requires Tree(s) && q !in s.procs
    ensures forall r :: r in s.procs && r != ROOT ==> s.procs[r].parent != q
  {
    forall r | r in s.procs && r != ROOT
      ensures s.procs[r].parent != q
    {
      assert HangsOn(s, r, s.procs[r].parent);
    }
  }

  lemma {:induction false} ExitKeepsTree(s: State, q: nat, writes: bool)
    requires Tree(s) && Enabled(s, Exit(q, writes))
    ensures Tree(Next(s, Exit(q, writes)))
  {
    var s' := Next(s, Exit(q, writes));
    forall r | r in s'.procs && r != ROOT
      ensures HangsOn(s', r, s'.procs[r].parent)
    {
      assert r !in Subs(s, q);
      assert HangsOn(s, r, s.procs[r].parent);
    }
    forall r | r in s'.procs
      ensures |Subs(s', r)| <= |Subs(s, r)|
    {
      SubsAfterExit(s, q, s'.pipe, r);
    }
  }

  lemma {:induction false} SubsAfterExit(s: State, q: nat, pipe: nat, r: nat)
    ensures |Subs(State(s.procs - {q}, pipe), r)| <= |Subs(s, r)|
  {
    SubsetSize(Subs(State(s.procs - {q}, pipe), r), Subs(s, r));
  }

  /** In every reachable state of every interleaving there are tokens for the slots and the surplus. */
  lemma {:induction false} Conservation(slots: nat, steps: seq<Step>)
    requires slots > 1 && After(slots, steps).Some?
    ensures Inv(slots + Surplus(slots, steps), After(slots, steps).value)
    decreases |steps|
  {
    if steps == [] {
      InvInitial(slots);
    } else {
      Conservation(slots, steps[..|steps| - 1]);
      var r := After(slots, steps[..|steps| - 1]).value;
      StepConserves(slots + Surplus(slots, steps[..|steps| - 1]), r, steps[|steps| - 1]);
      match steps[|steps| - 1] {
        case Token(p, e) => TokenKeepsTree(r, p, e);
        case Spawn(p, q) => SpawnKeepsTree(r, p, q);
        case Exit(q, writes) => ExitKeepsTree(r, q, writes);
      }
    }
  }

  /** The live sub-makes of the processes `ps`. */
  ghost function SubsOf(s: State, ps: set<nat>): set<nat> {
    set q | q in s.procs && q != ROOT && s.procs[q].parent in ps
  }

  ghost function Restricted(m: map<nat, Proc>, ps: set<nat>): map<nat, Proc> {
    map p | p in m && p in ps :: m[p]
  }

  lemma {:induction false} LeavesOf(s: State, ps: set<nat>)
    requires ps <= s.procs.Keys && forall p :: p in s.procs ==> |Subs(s, p)| <= s.procs[p].tokens
    ensures SumLeaves(s, ps) == SumTokens(Restricted(s.procs, ps)) - |SubsOf(s, ps)|
    ensures SumLeaves(s, ps) >= 0
    decreases |ps|
  {
    hide SumTokens;
    if ps == {} {
      assert Restricted(s.procs, ps) == map[];
      assert SubsOf(s, ps) == {};
      EmptySums();
    } else {
      var p :| p in ps &&
               SumLeaves(s, ps) == (s.procs[p].tokens - |Subs(s, p)|) + SumLeaves(s, ps - {p});
      LeavesOf(s, ps - {p});
      RestrictedLess(s.procs, ps, p);
      SubsOfLess(s, ps, p);
      hide *;
      SumSplit(Restricted(s.procs, ps), p);
    }
  }

  lemma {:induction false} RestrictedLess(m: map<nat, Proc>, ps: set<nat>, p: nat)
    requires p in ps && p in m
    ensures p in Restricted(m, ps) && Restricted(m, ps)[p] == m[p]
    ensures Restricted(m, ps) - {p} == Restricted(m, ps - {p})
  {
  }

  lemma {:induction false} SubsOfLess(s: State, ps: set<nat>, p: nat)
    requires p in ps
    ensures |SubsOf(s, ps)| == |SubsOf(s, ps - {p})| + |Subs(s, p)|
  {
    assert SubsOf(s, ps) == SubsOf(s, ps - {p}) + Subs(s, p);
    assert SubsOf(s, ps - {p}) !! Subs(s, p);
  }

  /** Every make but the root is somebody's job, so it is subtracted once. */
  lemma {:induction false} LeafJobsAreRest(slots: int, s: State)
    requires Inv(slots, s)
    ensures LeafJobs(s) == SumTokens(s.procs) - (|s.procs| - 1) >= 0
  {
    LeavesOf(s, s.procs.Keys);
    assert Restricted(s.procs, s.procs.Keys) == s.procs;
    assert SubsOf(s, s.procs.Keys) == s.procs.Keys - {ROOT};
  }

  /** At any moment of any run, leaf jobs, tokens in the pipe and makes without a job add up to
      exactly the number given with `-j` and the surplus.  So at most that many leaf jobs run at
      once. */
  lemma {:induction false} ParallelismExact(slots: nat, steps: seq<Step>)
    requires slots > 1 && After(slots, steps).Some?
    ensures var s := After(slots, steps).value;
            LeafJobs(s) + s.pipe + |Idle(s.procs)| == slots + Surplus(slots, steps) &&
            0 <= LeafJobs(s) <= slots + Surplus(slots, steps)
  {
    var s := After(slots, steps).value;
    Conservation(slots, steps);
    TokensAreHeldPlusBusy(s.procs);
    LeafJobsAreRest(slots + Surplus(slots, steps), s);
  }

  /** Every make that has ended counted no tokens any more. */
  ghost predicate AllGivenBack(slots: nat, steps: seq<Step>)
    requires slots > 1
  {
    forall i :: 0 <= i < |steps| && steps[i].Exit? ==>
      match After(slots, steps[..i]) case None => true case Some(s) => EndedEmpty(s, steps[i].q)
  }

  predicate EndedEmpty(s: State, q: nat) {
    q in s.procs ==> s.procs[q].tokens == 0
  }

  /** Then nothing was gained or lost. */
  lemma {:induction false} NoSurplus(slots: nat, steps: seq<Step>)
    requires slots > 1 && AllGivenBack(slots, steps)
    ensures Surplus(slots, steps) == 0
    decreases |steps|
  {
    if steps != [] {
      var init := steps[..|steps| - 1];
      forall i | 0 <= i < |init| && init[i].Exit?
        ensures match After(slots, init[..i]) case None => true case Some(s) => EndedEmpty(s, init[i].q)
      {
        assert init[..i] == steps[..i] && init[i] == steps[i];
      }
      NoSurplus(slots, init);
      hide Next;
    }
  }

  /** How many makes below the root have ended with status 2 so far. */
  function GiveBacks(steps: seq<Step>): nat {
    if steps == [] then 0
    else GiveBacks(steps[..|steps| - 1]) + if steps[|steps| - 1].Exit? && steps[|steps| - 1].writes then 1 else 0
  }

  /** The surplus is one for each of them at most. */
  lemma {:induction false} SurplusBound(slots: nat, steps: seq<Step>)
    requires slots > 1
    ensures Surplus(slots, steps) <= GiveBacks(steps)
    decreases |steps|
  {
    if steps != [] {
      SurplusBound(slots, steps[..|steps| - 1]);
      hide Next, Enabled;
    }
  }

  /** The root has no jobs. */
  ghost predicate RootIsIdle(slots: nat, steps: seq<Step>) {
    slots > 1 && After(slots, steps).Some? &&
    ROOT in After(slots, steps).value.procs && After(slots, steps).value.procs[ROOT].tokens == 0
  }

  /** A root without jobs cannot have a running sub-make anywhere below it, so waiting for its
      own jobs is waiting for the whole tree. */
  lemma {:induction false} IdleRootIsAlone(slots: nat, steps: seq<Step>)
    requires RootIsIdle(slots, steps)
    ensures After(slots, steps).value.procs.Keys == {ROOT}
  {
    var s := After(slots, steps).value;
    Conservation(slots, steps);
    assert |Subs(s, ROOT)| == 0;
    forall q | q in s.procs && q != ROOT
      ensures false
    {
      ClimbToRoot(slots + Surplus(slots, steps), s, q);
    }
  }

  lemma {:induction false} ClimbToRoot(slots: int, s: State, q: nat)
    requires Inv(slots, s) && q in s.procs && q != ROOT
    ensures Subs(s, ROOT) != {}
    decreases s.procs[q].level
  {
    var p := s.procs[q].parent;
    assert HangsOn(s, q, p);
    if p == ROOT {
      assert q in Subs(s, ROOT);
    } else {
      ClimbToRoot(slots, s, p);
    }
  }

  /** Whatever happened in between, once the root has no jobs the pipe holds one token less than
      the number of slots and the surplus.  So the count the root makes when it cleans up, starting
      from one for itself, comes out right exactly if as many tokens were made as lost, and in
      particular if every make below it ended with none. */
  lemma {:induction false} MasterCountsAll(slots: nat, steps: seq<Step>)
    requires RootIsIdle(slots, steps)
    ensures 1 + After(slots, steps).value.pipe == slots + Surplus(slots, steps)
    ensures AllGivenBack(slots, steps) ==> 1 + After(slots, steps).value.pipe == slots
  {
    IdleRootIsAlone(slots, steps);
    MasterCountsAtEnd(slots, steps, false);
    if AllGivenBack(slots, steps) {
      NoSurplus(slots, steps);
    }
  }

  /** The root alone is left, at the end of a run. */
  ghost predicate RootIsLeft(slots: nat, steps: seq<Step>) {
    slots > 1 && After(slots, steps).Some? && After(slots, steps).value.procs.Keys == {ROOT}
  }

  /** The root may itself still count jobs when it ends. */
  lemma {:induction false} MasterCountsAtEnd(slots: nat, steps: seq<Step>, writes: bool)
    requires RootIsLeft(slots, steps)
    ensures var s := After(slots, steps).value;
            1 + PipeAfter(s, ROOT, writes) == slots + Surplus(slots, steps) + EndChange(s.procs[ROOT].tokens, writes)
  {
    var s := After(slots, steps).value;
    Conservation(slots, steps);
    SumSplit(s.procs, ROOT);
    assert (s.procs - {ROOT}).Keys == {};
  }

  /** The set-up of the pipe: one token for each slot but the first. */
  method SetUpPipe(slots: nat) returns (jobSlots: nat, pipe: nat)
    requires slots > 1
    ensures jobSlots == 0 && pipe == Initial(slots).pipe
  {
    jobSlots, pipe := slots - 1, 0;
    while jobSlots > 0
      invariant jobSlots + pipe == slots - 1
    {
      pipe := pipe + 1;
      jobSlots := jobSlots - 1;
    }
  }

  /** What a make that ends with status 2 does with the tokens it still counts. */
  function GiveBack(s: State, q: nat): State
    requires q in s.procs
  {
    State(s.procs[q := s.procs[q].(tokens := 0)], PipeAfter(s, q, true))
  }

  /** That keeps the number of tokens only when there is nothing to write; otherwise the pipe
      gains one. */
  lemma {:induction false} GiveBackExact(slots: int, s: State, q: nat)
    requires Conserved(slots, s) && q in s.procs
    ensures Conserved(slots, GiveBack(s, q)) <==> s.procs[q].tokens == 0
    ensures s.procs[q].tokens > 0 ==> Conserved(slots + 1, GiveBack(s, q))
  {
    SumSplit(s.procs, q);
    SumUpdate(s.procs, q, s.procs[q].(tokens := 0));
  }

  /** The master's count at the end.  However the tokens were passed around, it reports wrong
      tokens exactly if those made, at its own end and before, are not as many as those lost. */
  method CountBack(available: nat, masterJobSlots: nat, ghost steps: seq<Step>, ghost writes: bool) returns (wrong: bool)
    ensures wrong <==> 1 + available != masterJobSlots
    ensures RootIsLeft(masterJobSlots, steps) ==>
      var s := After(masterJobSlots, steps).value;
      (available == PipeAfter(s, ROOT, writes) ==>
         (wrong <==> Surplus(masterJobSlots, steps) + EndChange(s.procs[ROOT].tokens, writes) != 0))
  {
    var tcnt, pipe := 1, available;
    while pipe > 0
      invariant tcnt + pipe == available + 1
    {
      pipe := pipe - 1;
      tcnt := tcnt + 1;
    }
    wrong := tcnt != masterJobSlots;
    if RootIsLeft(masterJobSlots, steps) {
      MasterCountsAtEnd(masterJobSlots, steps, writes);
    }
  }

  // ----- the history of one counter as a run

  function OfRoot(log: seq<TokenEvent>): seq<Step> {
    if log == [] then [] else OfRoot(log[..|log| - 1]) + [Token(ROOT, log[|log| - 1])]
  }

  /** Tokens are read only while there are some. */
  predicate PipeAllows(log: seq<TokenEvent>, slots: nat) {
    log != [] ==>
      PipeAllows(log[..|log| - 1], slots) && Replay(log[..|log| - 1]).Some? &&
      (log[|log| - 1].ReadToken? ==> Held(Replay(log[..|log| - 1]).value) + 1 < slots)
  }

  /** The tree with one process, of which the counter stands at `n`. */
  function Alone(n: nat, slots: nat): State
    requires Held(n) < slots
  {
    State(map[ROOT := Proc(n, ROOT, 0)], slots - 1 - Held(n))
  }

  lemma {:induction false} AloneStep(n: nat, slots: nat, e: TokenEvent)
    requires Held(n) < slots && LocalStep(n, e).Some? && (e.ReadToken? ==> Held(n) + 1 < slots)
    ensures Held(LocalStep(n, e).value) < slots && Enabled(Alone(n, slots), Token(ROOT, e))
    ensures Next(Alone(n, slots), Token(ROOT, e)) == Alone(LocalStep(n, e).value, slots)
  {
    var s := Alone(n, slots);
    assert Subs(s, ROOT) == {};
    assert s.procs[ROOT := s.procs[ROOT].(tokens := LocalStep(n, e).value)] == map[ROOT := Proc(LocalStep(n, e).value, ROOT, 0)];
  }

  lemma {:induction false} AfterOne(slots: nat, steps: seq<Step>, t: Step)
    requires slots > 1
    ensures After(slots, steps + [t]) ==
            match After(slots, steps) case None => None case Some(s) => if Enabled(s, t) then Some(Next(s, t)) else None
  {
    hide Enabled, Next;
    assert (steps + [t])[..|steps + [t]| - 1] == steps;
  }

  /** What a job counter does alone is a run of the tree: the pipe holds what the counter does not. */
  lemma {:induction false} HistoryIsRun(log: seq<TokenEvent>, slots: nat)
    requires slots > 1 && Replay(log).Some? && PipeAllows(log, slots)
    ensures Held(Replay(log).value) < slots && After(slots, OfRoot(log)) == Some(Alone(Replay(log).value, slots))
    decreases |log|
  {
    hide After, Enabled, Next, Alone, LocalStep;
    if log == [] {
      AloneAtFirst(slots);
    } else {
      var init, e := log[..|log| - 1], log[|log| - 1];
      HistoryIsRun(init, slots);
      AloneStep(Replay(init).value, slots, e);
      AfterOne(slots, OfRoot(init), Token(ROOT, e));
    }
  }

  lemma {:induction false} AloneAtFirst(slots: nat)
    requires slots > 1
    ensures After(slots, []) == Some(Alone(0, slots))
  {
  }

  // ----- tokens made

  /** A job is started on the free token, the next one finds the load too high and waits, the first
      one ends: one token is still counted. */
  const ONE_WAITS := [UseFree, ReadToken, WriteToken]

  lemma {:induction false} OneWaits(slots: nat)
    requires slots > 1
    ensures Replay(ONE_WAITS) == Some(1) && PipeAllows(ONE_WAITS, slots)
  {
    assert ONE_WAITS == [] + [UseFree] + [ReadToken] + [WriteToken];
    ReplayNext([], UseFree);
    ReplayNext([UseFree], ReadToken);
    ReplayNext([UseFree, ReadToken], WriteToken);
    assert ONE_WAITS[..2] == [UseFree, ReadToken] && ONE_WAITS[..2][..1] == [UseFree] && [UseFree][..0] == [];
    assert PipeAllows([], slots) && PipeAllows([UseFree], slots);
    assert PipeAllows([UseFree, ReadToken], slots);
  }

  /** A master that ends with status 2 there finds one token too many. */
  lemma {:induction false} GiveBackHappens(slots: nat)
    requires slots > 1
    ensures var steps := OfRoot(ONE_WAITS);
            RootIsLeft(slots, steps) && AllGivenBack(slots, steps) &&
            1 + PipeAfter(After(slots, steps).value, ROOT, true) == slots + 1
  {
    var steps := OfRoot(ONE_WAITS);
    OneWaits(slots);
    HistoryIsRun(ONE_WAITS, slots);
    NoExits(ONE_WAITS);
    NoSurplus(slots, steps);
    MasterCountsAtEnd(slots, steps, true);
  }

  lemma {:induction false} NoExits(log: seq<TokenEvent>)
    ensures forall i :: 0 <= i < |OfRoot(log)| ==> OfRoot(log)[i].Token?
  {
    if log != [] {
      NoExits(log[..|log| - 1]);
    }
  }

  /** The root, which counts `r`, and one make below it, which counts `t`. */
  function Two(r: nat, t: nat, pipe: nat): State {
    State(map[ROOT := Proc(r, ROOT, 0), 1 := Proc(t, ROOT, 1)], pipe)
  }

  lemma {:induction false} OneStepMore(slots: nat, steps: seq<Step>, s: State, t: Step)
    requires slots > 1 && After(slots, steps) == Some(s) && Enabled(s, t)
    ensures After(slots, steps + [t]) == Some(Next(s, t))
    ensures Surplus(slots, steps + [t]) == Surplus(slots, steps) + StepChange(s, t)
  {
    hide Enabled, Next, StepChange;
    assert (steps + [t])[..|steps + [t]| - 1] == steps;
  }

  lemma {:induction false} TwoStep(t: nat, pipe: nat, e: TokenEvent)
    requires LocalStep(t, e).Some? && (e.ReadToken? ==> pipe > 0)
    ensures Subs(Two(1, t, pipe), 1) == {} && Enabled(Two(1, t, pipe), Token(1, e))
    ensures Next(Two(1, t, pipe), Token(1, e)) ==
            Two(1, LocalStep(t, e).value, match e case ReadToken => pipe - 1 case WriteToken => pipe + 1 case _ => pipe)
  {
    var s := Two(1, t, pipe);
    assert Subs(s, 1) == {};
    assert s.procs[1 := Proc(LocalStep(t, e).value, ROOT, 1)] == Two(1, LocalStep(t, e).value, pipe).procs;
  }

  lemma {:induction false} TwoBegin(pipe: nat)
    ensures var s := State(map[ROOT := Proc(1, ROOT, 0)], pipe);
            Enabled(s, Spawn(ROOT, 1)) && Next(s, Spawn(ROOT, 1)) == Two(1, 0, pipe)
  {
    assert Subs(State(map[ROOT := Proc(1, ROOT, 0)], pipe), ROOT) == {};
  }

  lemma {:induction false} TwoEnd(pipe: nat)
    ensures var s, s' := Two(1, 1, pipe), State(map[ROOT := Proc(1, ROOT, 0)], pipe + 1);
            Enabled(s, Exit(1, true)) && Next(s, Exit(1, true)) == s' && StepChange(s, Exit(1, true)) == 1 &&
            Enabled(s', Token(ROOT, DropFree)) && Next(s', Token(ROOT, DropFree)).procs == map[ROOT := Proc(0, ROOT, 0)]
  {
    var s, s' := Two(1, 1, pipe), State(map[ROOT := Proc(1, ROOT, 0)], pipe + 1);
    assert Subs(s, 1) == {} && Subs(s', ROOT) == {};
    assert s.procs - {1} == s'.procs;
  }

  const SUB_GIVES_BACK := [Token(ROOT, UseFree), Spawn(ROOT, 1), Token(1, UseFree), Token(1, ReadToken), Token(1, WriteToken),
                           Exit(1, true), Token(ROOT, DropFree)]

  /** So does a master without jobs, if that has happened to a make below it. */
  lemma {:induction false} SubGiveBackHappens(slots: nat)
    requires slots > 1
    ensures RootIsIdle(slots, SUB_GIVES_BACK) && Surplus(slots, SUB_GIVES_BACK) == 1 &&
            1 + After(slots, SUB_GIVES_BACK).value.pipe == slots + 1
  {
    SubWaits(slots);
    var p: nat := slots - 1;
    var five := [Token(ROOT, UseFree), Spawn(ROOT, 1), Token(1, UseFree), Token(1, ReadToken), Token(1, WriteToken)];
    TwoEnd(p);
    hide Enabled, Next, After, Surplus, StepChange;
    OneStepMore(slots, five, Two(1, 1, p), Exit(1, true));
    var s := State(map[ROOT := Proc(1, ROOT, 0)], p + 1);
    OneStepMore(slots, five + [Exit(1, true)], s, Token(ROOT, DropFree));
    NothingChanges(s, ROOT, DropFree);
    assert SUB_GIVES_BACK == five + [Exit(1, true)] + [Token(ROOT, DropFree)];
    MasterCountsAll(slots, SUB_GIVES_BACK);
  }

  lemma {:induction false} NothingChanges(s: State, p: nat, e: TokenEvent)
    requires Enabled(s, Token(p, e))
    ensures StepChange(s, Token(p, e)) == 0
  {
  }

  lemma {:induction false} SubWaits(slots: nat)
    requires slots > 1
    ensures var five := [Token(ROOT, UseFree), Spawn(ROOT, 1), Token(1, UseFree), Token(1, ReadToken), Token(1, WriteToken)];
            After(slots, five) == Some(Two(1, 1, slots - 1)) && Surplus(slots, five) == 0
  {
    var p: nat := slots - 1;
    var s0, s1 := Initial(slots), State(map[ROOT := Proc(1, ROOT, 0)], p);
    AloneStep(0, slots, UseFree);
    assert Alone(0, slots) == s0 && Alone(1, slots) == s1;
    TwoBegin(p);
    TwoStep(0, p, UseFree);
    TwoStep(1, p, ReadToken);
    TwoStep(2, p - 1, WriteToken);
    NothingAtFirst(slots);
    NothingSpawned(s1, ROOT, 1);
    NothingChanges(s0, ROOT, UseFree);
    NothingChanges(Two(1, 0, p), 1, UseFree);
    NothingChanges(Two(1, 1, p), 1, ReadToken);
    NothingChanges(Two(1, 2, p - 1), 1, WriteToken);
    hide Enabled, Next, After, Surplus, StepChange, LocalStep;
    var a, b, c, d := [Token(ROOT, UseFree)], Spawn(ROOT, 1), Token(1, UseFree), Token(1, ReadToken);
    assert [] + a == a;
    OneStepMore(slots, [], s0, Token(ROOT, UseFree));
    OneStepMore(slots, a, s1, b);
    OneStepMore(slots, a + [b], Two(1, 0, p), c);
    OneStepMore(slots, a + [b] + [c], Two(1, 1, p), d);
    OneStepMore(slots, a + [b] + [c] + [d], Two(1, 2, p - 1), Token(1, WriteToken));
    assert a + [b] + [c] + [d] + [Token(1, WriteToken)] == [Token(ROOT, UseFree), b, c, d, Token(1, WriteToken)];
  }

  lemma {:induction false} NothingAtFirst(slots: nat)
    requires slots > 1
    ensures After(slots, []) == Some(Initial(slots)) && Surplus(slots, []) == 0
  {
  }

  lemma {:induction false} NothingSpawned(s: State, p: nat, q: nat)
    requires Enabled(s, Spawn(p, q))
    ensures StepChange(s, Spawn(p, q)) == 0
  {
  }
}
