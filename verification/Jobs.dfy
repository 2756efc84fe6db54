/** The job control of one make process: the chain of running children, the chain of jobs that
    wait for the load to drop, and the counters kept beside them. */
module Jobs {
  import opened Wrappers
  import opened JobserverTree

  datatype CommandState = NotStarted | Running | Finished

  /** A job: the fields of its `struct child`, and the state and status of the file it remakes.
      `ptr` is the part of the current line that has not been run yet.  `ran` is a history of the
      text that has been dealt with, a newline after each command. */
  datatype Child = Child(id: nat, lines: seq<string>, line: nat, ptr: Option<string>,
                         state: CommandState, status: nat, noerror: bool, dontcare: bool, ran: string)

  /** The lines with text in them. */
  function Texts(lines: seq<string>): seq<string> {
    if lines == [] then []
    else (if lines[0] == "" then [] else [lines[0]]) + Texts(lines[1..])
  }

  /** The text a job has still to run, in order. */
  function Script(c: Child): seq<string>
    requires c.line <= |c.lines|
  {
    (if c.ptr.Some? && c.ptr.value != "" then [c.ptr.value] else []) + Texts(c.lines[c.line..])
  }

  predicate MoreToRun(c: Child) {
    c.line <= |c.lines| && Script(c) != []
  }

  /** Texts with a newline after each. */
  function Flat(texts: seq<string>): string {
    if texts == [] then "" else texts[0] + "\n" + Flat(texts[1..])
  }

  /** The whole text is that of one line after the other, each with text in it given a newline. */
  lemma {:induction false} TextOfLines(a: seq<string>, line: string)
    ensures Flat(Texts(a + [line])) == Flat(Texts(a)) + if line == "" then "" else line + "\n"
    ensures Flat(Texts([])) == ""
  {
    if a == [] {
      assert a + [line] == [line] && Texts([line]) == (if line == "" then [] else [line]) + Texts([]);
      TextFirst([line]);
    } else {
      hide Flat, Texts;
      assert (a + [line])[1..] == a[1..] + [line];
      TextFirst(a);
      TextFirst(a + [line]);
      TextOfLines(a[1..], line);
      Associate(if a[0] == "" then "" else a[0] + "\n", Flat(Texts(a[1..])), if line == "" then "" else line + "\n");
    }
  }

  lemma {:induction false} TextFirst(lines: seq<string>)
    requires lines != []
    ensures Flat(Texts(lines)) == (if lines[0] == "" then "" else lines[0] + "\n") + Flat(Texts(lines[1..]))
  {
    var first := if lines[0] == "" then [] else [lines[0]];
    assert Texts(lines) == first + Texts(lines[1..]);
    if lines[0] == "" {
      assert Texts(lines) == Texts(lines[1..]);
    } else {
      assert Texts(lines)[1..] == Texts(lines[1..]);
    }
  }

  /** What has been run and what is left make up the job's whole text: no command is skipped, run
      twice or run out of order. */
  ghost predicate ValidChild(c: Child) {
    c.line <= |c.lines| && c.ran + Flat(Script(c)) == Flat(Texts(c.lines))
  }

  /** The next command, if there is one, has text in it. */
  predicate Primed(c: Child) {
    c.ptr.Some? ==> c.ptr.value != ""
  }

  /** A job that is over; it counts as remade only when all of its text has been run. */
  ghost predicate FinishedChild(c: Child) {
    ValidChild(c) && c.state.Finished? && (c.status == 0 ==> c.ran == Flat(Texts(c.lines)))
  }

  ghost function LineWork(lines: seq<string>): nat {
    if lines == [] then 0 else |lines[0]| + 1 + LineWork(lines[1..])
  }

  /** How much command text is left. */
  ghost function Work(c: Child): nat {
    (if c.ptr.Some? then |c.ptr.value| else 0) + (if c.line <= |c.lines| then LineWork(c.lines[c.line..]) else 0)
  }

  ghost function TotalWork(cs: seq<Child>): nat {
    if cs == [] then 0 else Work(cs[0]) + 1 + TotalWork(cs[1..])
  }

  lemma {:induction false} TotalWorkUpdate(cs: seq<Child>, i: nat, c: Child)
    requires i < |cs|
    ensures TotalWork(cs[i := c]) == TotalWork(cs) - Work(cs[i]) + Work(c)
  {
    if i == 0 {
      assert cs[0 := c][1..] == cs[1..];
    } else {
      assert cs[i := c][1..] == cs[1..][i - 1 := c];
      TotalWorkUpdate(cs[1..], i - 1, c);
    }
  }

  lemma {:induction false} TotalWorkRemove(cs: seq<Child>, i: nat)
    requires i < |cs|
    ensures TotalWork(cs[..i] + cs[i + 1..]) < TotalWork(cs)
  {
    var rest := cs[..i] + cs[i + 1..];
    if i == 0 {
      assert rest == cs[1..];
    } else {
      assert rest[1..] == cs[1..][..i - 1] + cs[1..][i..];
      TotalWorkRemove(cs[1..], i - 1);
    }
  }

  ghost predicate RunningChild(c: Child) {
    ValidChild(c) && c.state.Running?
  }

  ghost predicate AllRunning(cs: seq<Child>) {
    cs == [] || (RunningChild(cs[0]) && AllRunning(cs[1..]))
  }

  ghost predicate AllWaiting(cs: seq<Child>) {
    cs == [] || (RunningChild(cs[0]) && Primed(cs[0]) && AllWaiting(cs[1..]))
  }

  ghost predicate AllFinished(cs: seq<Child>) {
    cs == [] || (FinishedChild(cs[0]) && AllFinished(cs[1..]))
  }

  lemma {:induction false} RunningAt(cs: seq<Child>, i: nat)
    requires AllRunning(cs) && i < |cs|
    ensures RunningChild(cs[i])
  {
    if i > 0 {
      RunningAt(cs[1..], i - 1);
    }
  }

  lemma {:induction false} FirstWaits(cs: seq<Child>)
    requires AllWaiting(cs) && cs != []
    ensures ValidChild(cs[0]) && Primed(cs[0]) && AllWaiting(cs[1..])
  {
  }

  lemma {:induction false} FinishedAt(cs: seq<Child>, i: nat)
    requires AllFinished(cs) && i < |cs|
    ensures FinishedChild(cs[i])
  {
    if i > 0 {
      FinishedAt(cs[1..], i - 1);
    }
  }

  lemma {:induction false} RunningRemove(cs: seq<Child>, i: nat)
    requires AllRunning(cs) && i < |cs|
    ensures AllRunning(cs[..i] + cs[i + 1..])
  {
    var rest := cs[..i] + cs[i + 1..];
    if i == 0 {
      assert rest == cs[1..];
    } else {
      assert rest[1..] == cs[1..][..i - 1] + cs[1..][i..];
      RunningRemove(cs[1..], i - 1);
    }
  }

  lemma {:induction false} RunningUpdate(cs: seq<Child>, i: nat, c: Child)
    requires AllRunning(cs) && i < |cs| && RunningChild(c)
    ensures AllRunning(cs[i := c])
  {
    if i == 0 {
      assert cs[0 := c][1..] == cs[1..];
    } else {
      assert cs[i := c][1..] == cs[1..][i - 1 := c];
      RunningUpdate(cs[1..], i - 1, c);
    }
  }

  /** What new_job was given for a job. */
  datatype Job = Job(lines: seq<string>, dontcare: bool)

  /** The child is that of the job whose number it has. */
  predicate IsJob(accepted: seq<Job>, c: Child) {
    c.id < |accepted| && accepted[c.id] == Job(c.lines, c.dontcare)
  }

  ghost predicate AllJobs(accepted: seq<Job>, cs: seq<Child>) {
    forall k :: 0 <= k < |cs| ==> IsJob(accepted, cs[k])
  }

  lemma {:induction false} JobsPush(accepted: seq<Job>, cs: seq<Child>, c: Child)
    ensures AllJobs(accepted, [c] + cs) <==> IsJob(accepted, c) && AllJobs(accepted, cs)
  {
    hide IsJob;
    assert forall k :: 0 <= k < |cs| ==> ([c] + cs)[k + 1] == cs[k];
    if AllJobs(accepted, [c] + cs) {
      assert IsJob(accepted, ([c] + cs)[0]);
      forall k | 0 <= k < |cs|
        ensures IsJob(accepted, cs[k])
      {
        assert IsJob(accepted, ([c] + cs)[k + 1]);
      }
    }
  }

  lemma {:induction false} JobsRemove(accepted: seq<Job>, cs: seq<Child>, i: nat)
    requires i < |cs| && AllJobs(accepted, cs)
    ensures AllJobs(accepted, cs[..i] + cs[i + 1..])
  {
    hide IsJob;
  }

  lemma {:induction false} JobsUpdate(accepted: seq<Job>, cs: seq<Child>, i: nat, c: Child)
    requires i < |cs| && AllJobs(accepted, cs) && IsJob(accepted, c)
    ensures AllJobs(accepted, cs[i := c])
  {
    hide IsJob;
  }

  lemma {:induction false} JobsMore(accepted: seq<Job>, cs: seq<Child>, job: Job)
    requires AllJobs(accepted, cs)
    ensures AllJobs(accepted + [job], cs)
  {
    assert forall k :: 0 <= k < |cs| ==> IsJob(accepted, cs[k]);
  }

  lemma {:induction false} JobAt(accepted: seq<Job>, cs: seq<Child>, i: nat)
    requires i < |cs| && AllJobs(accepted, cs)
    ensures IsJob(accepted, cs[i])
  {
  }

  /** How often job `id` is in a chain. */
  ghost function CountId(cs: seq<Child>, id: nat): nat {
    if cs == [] then 0 else (if cs[0].id == id then 1 else 0) + CountId(cs[1..], id)
  }

  lemma {:induction false} CountIdPush(cs: seq<Child>, c: Child)
    ensures forall id :: CountId([c] + cs, id) == CountId(cs, id) + (if c.id == id then 1 else 0)
  {
    assert ([c] + cs)[1..] == cs;
  }

  lemma {:induction false} CountIdRemove(cs: seq<Child>, i: nat)
    requires i < |cs|
    ensures forall id :: CountId(cs, id) == CountId(cs[..i] + cs[i + 1..], id) + (if cs[i].id == id then 1 else 0)
  {
    var rest := cs[..i] + cs[i + 1..];
    if i == 0 {
      assert rest == cs[1..];
    } else {
      assert rest[1..] == cs[1..][..i - 1] + cs[1..][i..];
      CountIdRemove(cs[1..], i - 1);
    }
  }

  lemma {:induction false} CountIdUpdate(cs: seq<Child>, i: nat, c: Child)
    requires i < |cs| && c.id == cs[i].id
    ensures forall id :: CountId(cs[i := c], id) == CountId(cs, id)
  {
    if i == 0 {
      assert cs[0 := c][1..] == cs[1..];
    } else {
      assert cs[i := c][1..] == cs[1..][i - 1 := c];
      CountIdUpdate(cs[1..], i - 1, c);
    }
  }

  lemma {:induction false} NextLine(c: Child, c': Child)
    requires c.line < |c.lines| && (c.ptr.None? || c.ptr.value == "")
    requires c' == c.(ptr := Some(c.lines[c.line]), line := c.line + 1)
    ensures Script(c') == Script(c) && Work(c') < Work(c)
  {
    assert c.lines[c.line..][1..] == c.lines[c.line + 1..];
  }

  /** job_next_command: move on to the next line with text in it.  Nothing that was still to be
      run is lost, and what is run next is the first of it. */
  method NextCommand(c: Child) returns (c': Child, more: bool)
    requires c.line <= |c.lines|
    ensures c'.line <= |c'.lines| && c' == c.(line := c'.line, ptr := c'.ptr)
    ensures Script(c') == Script(c) && (more <==> Script(c) != [])
    ensures if more then c'.ptr == Some(Script(c)[0]) && c'.ptr.value != "" else c'.ptr == None
    ensures Work(c') <= Work(c) && (more && c.ptr.None? ==> Work(c') < Work(c))
  {
    c' := c;
    while c'.ptr.None? || c'.ptr.value == ""
      invariant c'.line <= |c'.lines| && c' == c.(line := c'.line, ptr := c'.ptr)
      invariant Script(c') == Script(c)
      invariant Work(c') <= Work(c) && (c' == c || Work(c') < Work(c))
      decreases |c'.lines| - c'.line
    {
      if c'.line == |c'.lines| {
        return c'.(ptr := None), false;
      }
      var before := c';
      c' := c'.(ptr := Some(c'.lines[c'.line]), line := c'.line + 1);
      NextLine(before, c');
    }
    more := true;
  }

  /** The text that cutting off a command uses up: up to the newline, or with nothing behind it
      the whole line. */
  function UsedUp(p: string, rest: Option<string>): string
    requires RestOf(p, rest)
  {
    if rest.Some? && rest.value != "" then p[..|p| - |rest.value|] else p + "\n"
  }

  predicate RestOf(p: string, rest: Option<string>) {
    rest.Some? ==> |rest.value| < |p| && p[|p| - |rest.value|..] == rest.value && p[|p| - |rest.value| - 1] == '\n'
  }

  /** What is kept for later when the command ends at a newline. */
  function RestAt(p: string, end: Option<nat>): (rest: Option<string>)
    ensures RestOf(p, rest)
  {
    if end.Some? && end.value < |p| && p[end.value] == '\n' then Some(p[end.value + 1..]) else None
  }

  /** Where the command ends is for the command-line parser to say: at some newline, behind which
      the rest of the line is kept for later, or at the end of the line. */
  method AfterCommand(p: string, end: Option<nat>) returns (rest: Option<string>)
    ensures RestOf(p, rest)
    ensures rest.Some? <==> end.Some? && end.value < |p| && p[end.value] == '\n'
    ensures rest.Some? ==> p == p[..end.value] + "\n" + rest.value
  {
    rest := None;
    if end.Some? && end.value < |p| && p[end.value] == '\n' {
      rest := Some(p[end.value + 1..]);
    }
  }

  lemma {:induction false} Associate(a: string, b: string, c: string)
    ensures (a + b) + c == a + (b + c)
  {
  }

  /** The job that new_job makes for a file, with its first command fetched. */
  method NewChild(id: nat, lines: seq<string>, dontcare: bool) returns (c: Child)
    ensures ValidChild(c) && Primed(c) && c.id == id && c.lines == lines && c.dontcare == dontcare && c.ran == ""
  {
    c := Child(id, lines, 0, None, NotStarted, 0, false, dontcare, "");
    assert lines[0..] == lines;
    assert Script(c) == Texts(lines);
    assert c.ran + Flat(Script(c)) == Flat(Script(c));
    var more;
    c, more := NextCommand(c);
  }

  /** A command has been cut off the current line: it moves from what is left to what has been
      run. */
  lemma {:induction false} CommandRan(c: Child, rest: Option<string>, c': Child)
    requires ValidChild(c) && c.ptr.Some? && c.ptr.value != "" && RestOf(c.ptr.value, rest)
    requires c'.lines == c.lines && c'.line == c.line && c'.ptr == rest
    requires c'.ran == c.ran + UsedUp(c.ptr.value, rest)
    ensures ValidChild(c')
  {
    var p, texts := c.ptr.value, Texts(c.lines[c.line..]);
    var used := UsedUp(p, rest);
    assert Script(c)[1..] == texts;
    if rest.Some? && rest.value != "" {
      assert Script(c')[1..] == texts;
      assert p == used + rest.value;
      Associate(used, rest.value, "\n");
      Associate(used, rest.value + "\n", Flat(texts));
    } else {
      assert Script(c') == texts;
    }
    assert Flat(Script(c)) == used + Flat(Script(c'));
    Associate(c.ran, used, Flat(Script(c')));
  }

  /** Cuts the next command off the line. */
  method CutOff(c: Child, end: Option<nat>) returns (c': Child)
    requires ValidChild(c) && c.ptr.Some? && c.ptr.value != ""
    ensures ValidChild(c') && Work(c') < Work(c) && c' == c.(ptr := c'.ptr, ran := c'.ran)
    ensures c'.ptr == RestAt(c.ptr.value, end)
  {
    hide ValidChild, UsedUp;
    var rest := AfterCommand(c.ptr.value, end);
    c' := c.(ptr := rest, ran := c.ran + UsedUp(c.ptr.value, rest));
    CommandRan(c, rest, c');
  }

  /** Nothing counts of a child's state but its lines, where it is in them, and what was run. */
  lemma {:induction false} SameScript(c: Child, c': Child)
    requires c'.lines == c.lines && c'.line == c.line && c'.ptr == c.ptr && c'.ran == c.ran
    ensures ValidChild(c') <==> ValidChild(c)
    ensures Work(c') == Work(c)
  {
  }

  lemma {:induction false} LineOk(c: Child)
    requires ValidChild(c)
    ensures c.line <= |c.lines|
  {
  }

  lemma {:induction false} MovedOn(c: Child, c': Child)
    requires ValidChild(c) && c'.line <= |c'.lines| && c' == c.(line := c'.line, ptr := c'.ptr) && Script(c') == Script(c)
    ensures ValidChild(c')
  {
    hide Script, Flat, Texts;
  }

  /** When nothing is left, all has been run. */
  lemma {:induction false} AllRan(c: Child)
    requires ValidChild(c) && Script(c) == []
    ensures c.ran == Flat(Texts(c.lines))
  {
    hide Script, Texts;
    assert c.ran + "" == c.ran;
  }

  /** What comes of a command: there is nothing to execute in it, `-q` only asks whether there is, no process
      can be made, or one runs. */
  datatype Fate = Nothing | Asked | NoProcess | Runs

  /** What the environment decides of each command: where it ends, and what comes of it. */
  datatype Env = Env(ends: nat -> Option<nat>, fates: nat -> Fate)

  /** The first command of which something comes, if there is one from the `k`-th on. */
  ghost predicate FirstFate(fates: nat -> Fate, k: nat, f: Fate) {
    exists j :: IsFirstFate(fates, k, j, f)
  }

  ghost predicate IsFirstFate(fates: nat -> Fate, k: nat, j: nat, f: Fate) {
    k <= j && fates(j) == f && forall i :: k <= i < j ==> fates(i).Nothing?
  }

  lemma {:induction false} FateAhead(fates: nat -> Fate, k: nat, f: Fate)
    ensures f == fates(k) ==> FirstFate(fates, k, f)
    ensures fates(k).Nothing? && FirstFate(fates, k + 1, f) ==> FirstFate(fates, k, f)
  {
    if f == fates(k) {
      assert IsFirstFate(fates, k, k, f);
    }
    if fates(k).Nothing? && FirstFate(fates, k + 1, f) {
      var j :| IsFirstFate(fates, k + 1, j, f);
      assert IsFirstFate(fates, k, j, f);
    }
  }

  /** start_job_command: run the next command of a job.  What the environment decides is left open: where the
      command ends in the line, and what comes of it.  A job comes out running or finished, never not
      started; it runs if a process runs the first command with something to execute, and without such a
      command it is done. */
  method StartCommand(c: Child, env: Env, k: nat) returns (c': Child)
    requires ValidChild(c) && Primed(c)
    ensures ValidChild(c') && c'.id == c.id && c'.lines == c.lines && c'.dontcare == c.dontcare
    ensures c'.state.Running? || FinishedChild(c')
    ensures Work(c') <= Work(c) && (c.ptr.Some? ==> Work(c') < Work(c))
    ensures c'.state.Running? ==> FirstFate(env.fates, k, Runs)
    ensures c'.state.Finished? && c'.status != 0 ==>
      (c'.status == 2 && FirstFate(env.fates, k, NoProcess)) || (c'.status == 1 && FirstFate(env.fates, k, Asked))
    ensures c.ptr.Some? && env.fates(k).Runs? ==>
      c'.state.Running? && c'.ptr == RestAt(c.ptr.value, env.ends(k)) && c'.line == c.line
    ensures c.ptr.Some? && (env.fates(k).Asked? || env.fates(k).NoProcess?) ==> c'.state.Finished? && c'.status != 0
    decreases Work(c)
  {
    hide ValidChild, Script, Work, Flat, Texts, FirstFate, RestAt;
    c' := c;
    FateAhead(env.fates, k, Runs);
    FateAhead(env.fates, k, NoProcess);
    FateAhead(env.fates, k, Asked);
    if c.ptr.Some? {
      var noerror: bool := *;
      SameScript(c, c.(noerror := noerror));
      c' := CutOff(c.(noerror := noerror), env.ends(k));
      if !env.fates(k).Nothing? {
        var state, status := Finished, 2;
        if env.fates(k).Asked? {
          status := 1;
        } else if env.fates(k).Runs? {
          state, status := Running, c'.status;
        }
        SameScript(c', c'.(status := status, state := state));
        return c'.(status := status, state := state);
      }
    }
    LineOk(c');
    ghost var before := c';
    var more;
    c', more := NextCommand(c');
    MovedOn(before, c');
    if more {
      c' := StartCommand(c', env, if c.ptr.Some? then k + 1 else k);
    } else {
      AllRan(c');
      SameScript(c', c'.(status := 0, state := Finished));
      c' := c'.(state := Running).(status := 0).(state := Finished);
    }
  }

  /** A job whose command has succeeded, or whose failure is ignored: its next command is run, or it is done. */
  method GoOn(c: Child, env: Env) returns (c': Child)
    requires RunningChild(c)
    ensures MoreToRun(c) && env.fates(0).Runs? ==> c'.state.Running?
    ensures !MoreToRun(c) ==> !c'.state.Running? && c'.status == 0
    ensures c'.id == c.id && c'.lines == c.lines && c'.dontcare == c.dontcare
    ensures if c'.state.Running? then RunningChild(c') && Work(c') < Work(c) else FinishedChild(c'.(state := Finished))
  {
    hide Script, Work, Flat, Texts;
    LineOk(c);
    var more;
    c', more := NextCommand(c);
    MovedOn(c, c');
    if more {
      hide ValidChild;
      c' := StartCommand(c', env, 0);
    } else {
      AllRan(c');
      SameScript(c', c'.(state := Finished).(status := 0));
      c' := c'.(state := Finished).(status := 0);
    }
  }

  lemma {:induction false} WouldRun(c: Child)
    requires ValidChild(c) && Primed(c)
    ensures RunningChild(c.(state := Running)) && Primed(c.(state := Running))
    ensures forall accepted :: IsJob(accepted, c) ==> IsJob(accepted, c.(state := Running))
  {
    SameScript(c, c.(state := Running));
  }

  lemma {:induction false} NowRuns(c: Child)
    requires ValidChild(c) && c.state.Running?
    ensures RunningChild(c)
  {
  }

  lemma {:induction false} SameJob(accepted: seq<Job>, c: Child, c': Child)
    requires IsJob(accepted, c) && c'.id == c.id && c'.lines == c.lines && c'.dontcare == c.dontcare
    ensures IsJob(accepted, c')
  {
  }

  lemma {:induction false} FailedIsOver(c: Child)
    requires RunningChild(c)
    ensures FinishedChild(c.(status := 2).(state := Finished))
  {
    SameScript(c, c.(status := 2).(state := Finished));
  }

  /** Each of the first `n` jobs is in one place and no other job is anywhere. */
  ghost predicate AllPlaced(children: seq<Child>, waiting: seq<Child>, done: seq<Child>, hand: Option<nat>, n: nat) {
    forall id: nat ::
      CountId(children, id) + CountId(waiting, id) + CountId(done, id) + (if hand == Some(id) then 1 else 0)
      == if id < n then 1 else 0
  }

  /** A waiting job is taken in hand. */
  lemma {:induction false} TakenInHand(children: seq<Child>, waiting: seq<Child>, done: seq<Child>, accepted: seq<Job>, n: nat)
    requires waiting != [] && AllPlaced(children, waiting, done, None, n) && AllJobs(accepted, waiting)
    ensures AllPlaced(children, waiting[1..], done, Some(waiting[0].id), n)
    ensures AllJobs(accepted, waiting[1..]) && IsJob(accepted, waiting[0])
  {
    hide CountId, IsJob;
    var c, rest := waiting[0], waiting[1..];
    assert waiting == [c] + rest;
    JobsPush(accepted, rest, c);
    CountIdPush(rest, c);
  }

  /** One make process. */
  class Make {
    const jobSlots: nat        // 0 when there is no limit, and when the jobserver is in charge
    const useJobserver: bool
    const loadLimited: bool
    const notParallel: bool
    const keepGoing: bool
    const ignoreErrors: bool

    var children: seq<Child>
    var waiting: seq<Child>
    var jobSlotsUsed: nat
    var jobserverTokens: nat
    var started: nat
    var dying: bool
    var exited: Option<nat>

    ghost var log: seq<TokenEvent>
    ghost var net: int         // tokens written to the pipe, less tokens read from it
    ghost var done: seq<Child> // finished jobs, the last one first
    ghost var accepted: seq<Job>
    ghost var failures: nat    // commands that failed where that matters

    /** The counters agree with the chains; `hand` jobs are in neither.  The
        token history is one that JobserverTree allows. */
    ghost predicate Counted(hand: nat)
      reads this
    {
      jobSlotsUsed == |children| && jobserverTokens == |children| + |waiting| + hand &&
      (useJobserver ==> jobSlots == 0 && Replay(log) == Some(jobserverTokens) && net + Held(jobserverTokens) == 0)
    }

    /** Chained jobs are running, without a load limit nothing waits, and then `-j` bounds the
        running jobs. */
    ghost predicate Chained()
      reads this
    {
      AllRunning(children) && AllWaiting(waiting) && AllFinished(done) &&
      (!loadLimited ==> waiting == []) && (!loadLimited && jobSlots > 0 ==> |children| <= jobSlots)
    }

    /** Every job ever accepted is in exactly one place, with the lines it was accepted with. */
    ghost predicate Accounted(hand: Option<nat>)
      reads this
    {
      AllPlaced(children, waiting, done, hand, started) && |accepted| == started &&
      AllJobs(accepted, children) && AllJobs(accepted, waiting) && AllJobs(accepted, done)
    }

    twostate predicate SameJobs()
      reads this
    {
      started == old(started) && accepted == old(accepted)
    }

    /** The invariant, with no job in hand. */
    ghost predicate Consistent()
      reads this
    {
      Counted(0) && Chained() && Accounted(None)
    }

    /** The invariant, with one job in neither chain. */
    ghost predicate Holding(id: nat)
      reads this
    {
      Counted(1) && Chained() && Accounted(Some(id))
    }

    predicate Linear() {
      jobSlots == 1 || notParallel
    }

    /** Between calls from outside: in linear mode no job is left over, and unless make is to keep
        going no command has failed. */
    ghost predicate Valid()
      reads this
    {
      Consistent() && exited.None? && !dying && (Linear() ==> children == [] && waiting == []) &&
      (keepGoing || failures == 0)
    }

    /** In linear mode every job accepted so far is finished, once. */
    lemma {:induction false} LinearJobsDone(id: nat)
      requires Valid() && Linear()
      ensures CountId(done, id) == if id < started then 1 else 0
    {
    }

    /** A failure is survived only if make is to keep going. */
    twostate predicate NoFailure()
      reads this
    {
      keepGoing || failures == old(failures)
    }

    /** Of every job that counts as remade, all the text it was accepted with has been run, in order. */
    lemma {:induction false} RemadeRan(c: Child, hand: Option<nat>)
      requires Chained() && Accounted(hand) && c in done && c.status == 0
      ensures c.id < |accepted| && c.ran == Flat(Texts(accepted[c.id].lines))
    {
      hide ValidChild, Flat, Texts;
      var k :| 0 <= k < |done| && done[k] == c;
      FinishedAt(done, k);
      JobAt(accepted, done, k);
    }

    constructor (jobSlots: nat, useJobserver: bool, loadLimited: bool, notParallel: bool, keepGoing: bool, ignoreErrors: bool)
      requires useJobserver ==> jobSlots == 0
      ensures Valid() && started == 0 && accepted == []
      ensures this.jobSlots == jobSlots && this.useJobserver == useJobserver && this.loadLimited == loadLimited
      ensures this.notParallel == notParallel && this.keepGoing == keepGoing && this.ignoreErrors == ignoreErrors
    {
      this.jobSlots, this.useJobserver, this.loadLimited := jobSlots, useJobserver, loadLimited;
      this.notParallel, this.keepGoing, this.ignoreErrors := notParallel, keepGoing, ignoreErrors;
      children, waiting, jobSlotsUsed, jobserverTokens, started := [], [], 0, 0, 0;
      dying, exited := false, None;
      log, net, done, accepted, failures := [], 0, [], [], 0;
    }

    /** free_child: the token of a finished job goes back, to the pipe unless it is the free one. */
    method FreeChild(c: Child)
      requires Holding(c.id) && FinishedChild(c) && IsJob(accepted, c)
      modifies this`jobserverTokens, this`log, this`net, this`done
      ensures Consistent() && done == [c] + old(done)
    {
      hide RunningChild, FinishedChild, Primed, IsJob, AllJobs;
      ReturnToken();
      CountIdPush(done, c);
      JobsPush(accepted, done, c);
      done := [c] + done;
    }

    method ReturnToken()
      requires Counted(1)
      modifies this`jobserverTokens, this`log, this`net
      ensures Counted(0)
    {
      if jobserverTokens == 0 {
        assert false;  // "INTERNAL: Freeing child ... but no tokens left!"
      }
      hide Replay;
      if useJobserver {
        var e := if jobserverTokens > 1 then WriteToken else DropFree;
        ReplayNext(log, e);
        log := log + [e];
        net := if jobserverTokens > 1 then net + 1 else net;
      }
      jobserverTokens := jobserverTokens - 1;
    }

    method AnyEnv() returns (env: Env) {
      env := *;
    }

    /** load_too_high */
    method LoadTooHigh() returns (high: bool)
      ensures high ==> loadLimited
    {
      high := *;
      high := high && loadLimited;
    }

    /** start_waiting_job: the job in hand is started, or put on the waiting chain when others
        are running and the load is too high. */
    method StartWaitingJob(c: Child, loadTooHigh: bool, env: Env) returns (started: bool)
      requires loadTooHigh ==> loadLimited
      requires Holding(c.id) && ValidChild(c) && Primed(c) && IsJob(accepted, c)
      requires !loadLimited && jobSlots > 0 ==> |children| < jobSlots
      modifies this`children, this`waiting, this`jobSlotsUsed, this`jobserverTokens,
               this`log, this`net, this`done
      ensures Consistent()
      ensures started <==> old(children) == [] || !loadTooHigh
      ensures if started then waiting == old(waiting)
              else children == old(children) != [] && waiting == [c.(state := Running)] + old(waiting) && done == old(done)
      ensures started ==> |children| <= |old(children)| + 1
      ensures started && |children| == |old(children)| + 1 ==> children[0].id == c.id && children[1..] == old(children)
      ensures started && |children| <= |old(children)| ==> children == old(children) && |done| == |old(done)| + 1
      ensures started && c.ptr.Some? && env.fates(0).Runs? ==> |children| == |old(children)| + 1
    {
      assert jobSlotsUsed == |children|;
      hide *;
      WouldRun(c);
      if jobSlotsUsed > 0 && loadTooHigh {
        PutOnWaiting(c.(state := Running));
        return false;
      }
      var c' := StartCommand(c, env, 0);
      SameJob(accepted, c, c');
      if c'.state.Running? {
        NowRuns(c');
        PutOnChildren(c');
      } else {
        FreeChild(c');
      }
      started := true;
    }

    /** Chain the job in hand with those that wait. */
    method PutOnWaiting(c: Child)
      requires Holding(c.id) && RunningChild(c) && Primed(c) && IsJob(accepted, c) && loadLimited
      modifies this`waiting
      ensures Consistent() && waiting == [c] + old(waiting)
    {
      hide ValidChild, Replay, CountId, IsJob, AllJobs;
      CountIdPush(waiting, c);
      JobsPush(accepted, waiting, c);
      waiting := [c] + waiting;
    }

    /** Chain the job in hand with the running ones. */
    method PutOnChildren(c: Child)
      requires Holding(c.id) && RunningChild(c) && IsJob(accepted, c)
      requires !loadLimited && jobSlots > 0 ==> |children| < jobSlots
      modifies this`children, this`jobSlotsUsed
      ensures Consistent() && children == [c] + old(children)
    {
      hide ValidChild, Replay, CountId, IsJob, AllJobs;
      CountIdPush(children, c);
      JobsPush(accepted, children, c);
      children := [c] + children;
      jobSlotsUsed := jobSlotsUsed + 1;
    }

    /** reap_children: handle children that have died, in whatever order and with whatever status
        they do; when `block`, until one whole job is finished. */
    method ReapChildren(block: bool, err: bool) returns (alive: bool)
      requires Consistent() && exited.None?
      modifies this
      ensures alive <==> exited.None?
      ensures SameJobs() && (err ==> alive)
      ensures alive ==> Consistent() && waiting == old(waiting) && dying == old(dying)
      ensures alive ==> |children| <= |old(children)|
      ensures alive && block && old(children) != [] ==> |children| < |old(children)|
      ensures !alive && !old(dying) ==> Ended(2)
      ensures if alive then err || NoFailure() else failures > old(failures) && !keepGoing
      ensures failures >= old(failures)
      decreases if dying then 0 else 1, 1
    {
      hide AllPlaced, AllJobs, Replay, AllRunning, AllWaiting, AllFinished;
      var blocking, reapMore := block, true;
      while children != [] && (blocking || reapMore)
        invariant Consistent() && exited.None? && SameJobs()
        invariant waiting == old(waiting) && dying == old(dying) && |children| <= |old(children)|
        invariant block && !blocking ==> |children| < |old(children)|
        invariant (err || NoFailure()) && failures >= old(failures)
        invariant blocking ==> block
        decreases TotalWork(children), reapMore
      {
        var noneDead: bool := *;
        if noneDead && !blocking {
          reapMore := false;
          break;
        }
        var i :| 0 <= i < |children|;
        var dontcare := children[i].dontcare;
        var childFailed: bool := *;
        var env := AnyEnv();
        var failed, finished := HandleExit(i, childFailed, env);
        if !finished {
          continue;
        }
        if !err && failed && !dontcare && !keepGoing {
          Die(2);
          return false;
        }
        blocking := false;
      }
      alive := true;
    }

    /** The process of child `i` has ended: record a failure, or go on with the job's next
        command, or finish the job.  `failed` says that the job failed and that it matters. */
    method HandleExit(i: nat, childFailed: bool, env: Env) returns (failed: bool, finished: bool)
      requires Consistent() && i < |children|
      modifies this`children, this`jobSlotsUsed, this`jobserverTokens, this`log, this`net, this`done, this`failures
      ensures Consistent() && TotalWork(children) < TotalWork(old(children))
      ensures failures == old(failures) + if failed && !old(children)[i].dontcare then 1 else 0
      ensures if finished then |children| == |old(children)| - 1 && |done| == |old(done)| + 1 &&
                               done[0].id == old(children)[i].id && done[1..] == old(done)
              else |children| == |old(children)| && done == old(done)
      ensures failed <==> childFailed && !old(children)[i].noerror && !ignoreErrors
      ensures failed ==> finished && done[0].status == 2
      ensures !failed && !MoreToRun(old(children)[i]) ==> finished && done[0].status == 0
      ensures !failed && MoreToRun(old(children)[i]) && env.fates(0).Runs? ==> !finished
    {
      hide *;
      failed := childFailed;
      ChildAt(i);
      var c := children[i];
      if failed && !c.noerror && !ignoreErrors {
        SameJob(accepted, c, c.(status := 2).(state := Finished));
        failures := failures + if c.dontcare then 0 else 1;
        OnlyFailures();
        c := c.(status := 2);
      } else {
        failed := false;
        c := GoOn(c, env);
        SameJob(accepted, children[i], c);
        SameJob(accepted, children[i], c.(state := Finished));
        if c.state.Running? {
          UpdateChild(i, c);
          return false, false;
        }
      }
      RemoveChild(i, c.(state := Finished));
      finished := true;
    }

    lemma {:induction false} ChildAt(i: nat)
      requires Consistent() && i < |children|
      ensures RunningChild(children[i]) && IsJob(accepted, children[i])
      ensures FinishedChild(children[i].(status := 2).(state := Finished))
    {
      RunningAt(children, i);
      JobAt(accepted, children, i);
      FailedIsOver(children[i]);
      hide *;
    }

    twostate lemma {:induction false} OnlyFailures()
      requires old(Consistent())
      requires unchanged(this`children, this`waiting, this`jobSlotsUsed, this`jobserverTokens, this`started, this`log, this`net, this`done, this`accepted)
      ensures Consistent()
    {
      hide AllPlaced, AllJobs, Replay, Held, AllRunning, AllWaiting, AllFinished;
    }

    /** A child goes on with its next command. */
    method UpdateChild(i: nat, c: Child)
      requires Consistent() && i < |children|
      requires RunningChild(c) && c.id == children[i].id && IsJob(accepted, c) && Work(c) < Work(children[i])
      modifies this`children
      ensures Consistent() && |children| == |old(children)|
      ensures TotalWork(children) < TotalWork(old(children))
    {
      hide ValidChild, CountId, Replay, IsJob, AllJobs;
      JobsUpdate(accepted, children, i, c);
      TotalWorkUpdate(children, i, c);
      CountIdUpdate(children, i, c);
      RunningUpdate(children, i, c);
      children := children[i := c];
    }

    /** A child leaves the chain, its slot opens and it is freed. */
    method RemoveChild(i: nat, c: Child)
      requires Consistent() && FinishedChild(c) && i < |children| && c.id == children[i].id && IsJob(accepted, c)
      modifies this`children, this`jobSlotsUsed, this`jobserverTokens,
               this`log, this`net, this`done
      ensures Consistent() && |children| == |old(children)| - 1
      ensures done == [c] + old(done)
      ensures TotalWork(children) < TotalWork(old(children))
    {
      hide ValidChild, FinishedChild, RunningChild, Replay, CountId, IsJob, AllJobs;
      JobsRemove(accepted, children, i);
      CountIdRemove(children, i);
      RunningRemove(children, i);
      TotalWorkRemove(children, i);
      if jobSlotsUsed > 0 {
        jobSlotsUsed := jobSlotsUsed - 1;
      }
      children := children[..i] + children[i + 1..];
      FreeChild(c);
    }

    /** How a process ends that waited for its children.  With the jobserver, what it has put into
        the pipe differs from what it took out by the change that JobserverTree gives for its end,
        while so many jobs still wait for the load to drop. */
    ghost predicate Ended(status: nat)
      reads this
    {
      exited == Some(status) && children == [] && jobSlotsUsed == 0 && (!loadLimited ==> waiting == []) &&
      (useJobserver ==> net == EndChange(|waiting|, status == 2)) && Chained() && Accounted(None)
    }

    /** die */
    method Die(status: nat)
      requires Consistent() && exited.None?
      modifies this
      ensures exited.Some? && SameJobs() && failures >= old(failures)
      ensures !old(dying) && status != 0 ==> Ended(status)
      decreases if dying then 0 else 1, 0
    {
      hide AllPlaced, AllJobs, Replay, AllRunning, AllWaiting, AllFinished;
      if !dying {
        dying := true;
        var alive := WaitForChildren(status != 0);
        if !alive {
          return;
        }
        CleanJobserver(status);
      }
      exited := Some(status);
    }

    method WaitForChildren(err: bool) returns (alive: bool)
      requires Consistent() && exited.None? && dying
      modifies this
      ensures (alive <==> exited.None?) && (err ==> alive) && SameJobs() && failures >= old(failures)
      ensures alive ==> Consistent() && children == []
      decreases if dying then 0 else 1, 2
    {
      hide AllPlaced, AllJobs, Replay, AllRunning, AllWaiting, AllFinished;
      alive := true;
      while jobSlotsUsed > 0
        invariant Consistent() && exited.None? && dying && SameJobs() && alive && failures >= old(failures)
        decreases |children|
      {
        alive := ReapChildren(true, err);
        if !alive {
          return;
        }
      }
    }

    /** The first half of clean_jobserver: tokens left over are written back after a fatal error,
        and only complained about otherwise. */
    method CleanJobserver(status: nat)
      requires Counted(0) && children == []
      modifies this`jobserverTokens, this`net
      ensures useJobserver ==> net == EndChange(|waiting|, status == 2)
    {
      if useJobserver && jobserverTokens > 0 && status == 2 {
        while jobserverTokens > 0
          invariant net + jobserverTokens == old(net + jobserverTokens)
        {
          jobserverTokens := jobserverTokens - 1;
          net := net + 1;
        }
      }
    }

    /** start_waiting_jobs: start waiting jobs until one has to wait again.  If any job is still
        waiting afterwards, another one is running. */
    method StartWaitingJobs() returns (alive: bool)
      requires Consistent() && exited.None? && !dying
      modifies this
      ensures alive <==> exited.None?
      ensures if alive then NoFailure() else failures > old(failures) && !keepGoing
      ensures SameJobs() && (old(waiting) == [] ==> alive && children == old(children) && waiting == [])
      ensures alive ==> Consistent() && !dying && (waiting == [] || children != [])
      ensures !alive ==> Ended(2)
    {
      hide AllPlaced, AllJobs, Replay, AllRunning, AllWaiting, AllFinished;
      alive := true;
      if waiting == [] {
        return;
      }
      while true
        invariant Consistent() && exited.None? && !dying && SameJobs() && NoFailure() && alive && waiting != []
        decreases |waiting|
      {
        alive := ReapChildren(false, false);
        if !alive {
          return;
        }
        var job := waiting[0];
        TakeFromWaiting();
        var loadTooHigh := LoadTooHigh();
        var env := AnyEnv();
        var ok := StartWaitingJob(job, loadTooHigh, env);
        if !ok || waiting == [] {
          break;
        }
      }
    }

    /** The counters and chains with the first waiting job in hand. */
    twostate lemma {:induction false} Taken()
      requires old(Consistent()) && old(waiting) != [] && waiting == old(waiting)[1..]
      requires unchanged(this`children, this`jobSlotsUsed, this`jobserverTokens, this`started, this`log, this`net, this`done, this`accepted)
      ensures Holding(old(waiting)[0].id)
      ensures ValidChild(old(waiting)[0]) && Primed(old(waiting)[0]) && IsJob(accepted, old(waiting)[0])
    {
      FirstWaits(old(waiting));
      TakenInHand(children, old(waiting), done, accepted, started);
      hide AllPlaced, IsJob, AllJobs, ValidChild, Primed, Replay, Held, AllRunning, AllWaiting, AllFinished;
    }

    method TakeFromWaiting()
      requires Consistent() && waiting != []
      modifies this`waiting
      ensures Holding(old(waiting)[0].id) && waiting == old(waiting)[1..]
      ensures ValidChild(old(waiting)[0]) && Primed(old(waiting)[0]) && IsJob(accepted, old(waiting)[0])
    {
      hide *;
      waiting := waiting[1..];
      Taken();
    }

    /** Count the token that the next job will run on: the free one, or one read from the pipe. */
    method TakeToken(ghost job: Job)
      requires Consistent()
      modifies this`jobserverTokens, this`started, this`log, this`net, this`accepted
      ensures Holding(old(started)) && started == old(started) + 1 && accepted == old(accepted) + [job]
    {
      hide Replay, CountId, AllRunning, AllWaiting, AllFinished, IsJob, AllJobs;
      JobsMore(accepted, children, job);
      JobsMore(accepted, waiting, job);
      JobsMore(accepted, done, job);
      accepted := accepted + [job];
      if useJobserver {
        var e := if jobserverTokens == 0 then UseFree else ReadToken;
        ReplayNext(log, e);
        log := log + [e];
        net := if jobserverTokens == 0 then net else net - 1;
      }
      jobserverTokens := jobserverTokens + 1;
      started := started + 1;
    }

    /** The wait for a token in new_job; the read is interrupted `interrupts` times before it
        succeeds. */
    method WaitForToken(interrupts: nat) returns (alive: bool)
      requires Consistent() && exited.None? && !dying && useJobserver
      modifies this
      ensures alive <==> exited.None?
      ensures if alive then NoFailure() else failures > old(failures) && !keepGoing
      ensures SameJobs() && (old(children) == [] && old(waiting) == [] ==> children == [] && waiting == [])
      ensures alive ==> Consistent() && !dying
      ensures !alive ==> Ended(2)
    {
      hide AllPlaced, AllJobs, Replay, AllRunning, AllWaiting, AllFinished;
      alive := true;
      var left := interrupts;
      while true
        invariant Consistent() && exited.None? && !dying && SameJobs() && NoFailure() && alive
        invariant old(children) == [] && old(waiting) == [] ==> children == [] && waiting == []
        decreases left
      {
        if jobserverTokens == 0 {
          break;
        }
        alive := ReapChildren(false, false);
        if !alive {
          return;
        }
        alive := StartWaitingJobs();
        if !alive {
          return;
        }
        if jobserverTokens == 0 {
          break;
        }
        if children == [] {
          assert false;  // "INTERNAL: no children as we go to sleep on read"
        }
        if left == 0 {
          break;
        }
        left := left - 1;
      }
    }

    /** Jobs that wait for the load start before a new one, and the dead are reaped. */
    method CatchUp() returns (alive: bool)
      requires Consistent() && exited.None? && !dying
      modifies this
      ensures alive <==> exited.None?
      ensures if alive then NoFailure() else failures > old(failures) && !keepGoing
      ensures SameJobs()
      ensures alive && old(children) == [] && old(waiting) == [] ==> children == [] && waiting == []
      ensures alive ==> Consistent() && !dying
      ensures !alive ==> Ended(2)
    {
      hide AllPlaced, AllJobs, Replay, AllRunning, AllWaiting, AllFinished;
      alive := StartWaitingJobs();
      if alive {
        alive := ReapChildren(false, false);
      }
    }

    /** new_job: accept a job and start it when it may be started. */
    method NewJob(lines: seq<string>, dontcare: bool, interrupts: nat) returns (alive: bool)
      requires Valid()
      modifies this
      ensures alive <==> exited.None?
      ensures if alive then NoFailure() else failures > old(failures) && !keepGoing
      ensures alive ==> Valid() && accepted == old(accepted) + [Job(lines, dontcare)]
      ensures !alive ==> Ended(2) && (accepted == old(accepted) || accepted == old(accepted) + [Job(lines, dontcare)])
    {
      hide ValidChild, Primed, IsJob, AllPlaced, AllJobs, Replay, AllRunning, AllWaiting, AllFinished;
      alive := CatchUp();
      if !alive {
        return;
      }
      var c := NewChild(started, lines, dontcare);
      alive := WaitForSlot(interrupts);
      if !alive {
        return;
      }
      Accept(c);
      if Linear() {
        alive := FinishJob(c.id);
      }
    }

    /** The job takes a token and is started, or put on the waiting chain. */
    method Accept(c: Child)
      requires Consistent() && ValidChild(c) && Primed(c) && c.id == started
      requires jobSlots != 0 ==> jobSlotsUsed != jobSlots
      modifies this`children, this`waiting, this`jobSlotsUsed, this`jobserverTokens, this`started,
               this`log, this`net, this`done, this`accepted
      ensures Consistent() && accepted == old(accepted) + [Job(c.lines, c.dontcare)]
      ensures old(children) == [] && old(waiting) == [] ==> waiting == [] && (children == [] || (|children| == 1 && children[0].id == c.id))
    {
      hide ValidChild, Primed, AllPlaced, AllJobs, Replay, AllRunning, AllWaiting, AllFinished;
      TakeToken(Job(c.lines, c.dontcare));
      var loadTooHigh := LoadTooHigh();
      var env := AnyEnv();
      var _ := StartWaitingJob(c, loadTooHigh, env);
    }

    /** Wait for a job slot to be freed up, or for a token. */
    method WaitForSlot(interrupts: nat) returns (alive: bool)
      requires Consistent() && exited.None? && !dying
      modifies this
      ensures alive <==> exited.None?
      ensures if alive then NoFailure() else failures > old(failures) && !keepGoing
      ensures SameJobs() && (old(children) == [] && old(waiting) == [] ==> children == [] && waiting == [])
      ensures alive ==> Consistent() && !dying && (jobSlots != 0 ==> jobSlotsUsed != jobSlots)
      ensures !alive ==> Ended(2)
    {
      hide AllPlaced, AllJobs, Replay, AllRunning, AllWaiting, AllFinished;
      alive := true;
      if jobSlots != 0 {
        while jobSlotsUsed == jobSlots
          invariant Consistent() && exited.None? && !dying && SameJobs() && NoFailure() && alive
          invariant old(children) == [] && old(waiting) == [] ==> children == [] && waiting == []
          decreases |children|
        {
          alive := ReapChildren(true, false);
          if !alive {
            return;
          }
        }
      } else if useJobserver {
        alive := WaitForToken(interrupts);
      }
    }

    /** Make things run linearly: wait for the one running job to be over. */
    method FinishJob(id: nat) returns (alive: bool)
      requires Consistent() && exited.None? && !dying && waiting == []
      requires children == [] || (|children| == 1 && children[0].id == id)
      modifies this
      ensures alive <==> exited.None?
      ensures if alive then NoFailure() else failures > old(failures) && !keepGoing
      ensures SameJobs()
      ensures alive ==> Consistent() && !dying && children == [] && waiting == []
      ensures !alive ==> Ended(2)
    {
      hide AllPlaced, AllJobs, Replay, AllRunning, AllWaiting, AllFinished;
      alive := true;
      while FileRunning(id)
        invariant Consistent() && exited.None? && !dying && SameJobs() && NoFailure() && alive
        invariant waiting == [] && (children == [] || (|children| == 1 && children[0].id == id))
        decreases |children|
      {
        alive := ReapChildren(true, false);
        if !alive {
          return;
        }
      }
    }

    /** The file of job `id` is in state cs_running: the job is in one of the chains. */
    predicate FileRunning(id: nat)
      reads this
    {
      (exists c :: c in children && c.id == id) || (exists c :: c in waiting && c.id == id)
    }
  }
}
