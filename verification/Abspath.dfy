/** Absolute file names without ".", ".." and repeated slashes, built in one buffer. */
module Abspath {
  import opened Wrappers

  // ----- names as lists of components

  predicate IsComponent(c: string) {
    c != "" && '/' !in c
  }

  /** A component a result may have. */
  predicate Ordinary(c: string) {
    IsComponent(c) && c != "." && c != ".."
  }

  predicate AllOrdinary(stack: seq<string>) {
    forall k :: 0 <= k < |stack| ==> Ordinary(stack[k])
  }

  function SlashEnd(name: string, i: nat): (j: nat)
    requires i <= |name|
    ensures i <= j <= |name| && (j < |name| ==> name[j] != '/') && forall k :: i <= k < j ==> name[k] == '/'
    decreases |name| - i
  {
    if i < |name| && name[i] == '/' then SlashEnd(name, i + 1) else i
  }

  function ComponentEnd(name: string, i: nat): (j: nat)
    requires i <= |name|
    ensures i <= j <= |name| && (j < |name| ==> name[j] == '/') && forall k :: i <= k < j ==> name[k] != '/'
    decreases |name| - i
  {
    if i < |name| && name[i] != '/' then ComponentEnd(name, i + 1) else i
  }

  /** The components of a name from `i` on. */
  function Components(name: string, i: nat): (cs: seq<string>)
    requires i <= |name|
    ensures forall k :: 0 <= k < |cs| ==> IsComponent(cs[k])
    decreases |name| - i
  {
    var start := SlashEnd(name, i);
    if start == |name| then []
    else
      var end := ComponentEnd(name, start);
      [name[start..end]] + Components(name, end)
  }

  function Body(stack: seq<string>): string {
    if stack == [] then "" else Body(stack[..|stack| - 1]) + "/" + stack[|stack| - 1]
  }

  /** The absolute name of a list of components. */
  function Rendered(stack: seq<string>): string {
    if stack == [] then "/" else Body(stack)
  }

  /** One component more: "." is nothing, ".." goes up unless at the root, others go on the stack;
      None if the name gets too long. */
  function Pushed(stack: seq<string>, c: string, limit: nat): Option<seq<string>> {
    if c == "." then Some(stack)
    else if c == ".." then Some(if stack == [] then [] else stack[..|stack| - 1])
    else if |Body(stack)| + 1 + |c| >= limit then None
    else Some(stack + [c])
  }

  function Resolved(stack: seq<string>, cs: seq<string>, limit: nat): Option<seq<string>>
    decreases |cs|
  {
    if cs == [] then Some(stack)
    else
      match Pushed(stack, cs[0], limit)
      case None => None
      case Some(next) => Resolved(next, cs[1..], limit)
  }

  /** What abspath answers; `cwd` are the components of the starting directory. */
  function Absolute(name: string, cwd: Option<seq<string>>, limit: nat): Option<string> {
    if name == "" || (name[0] != '/' && cwd.None?) then None
    else
      match Resolved(if name[0] == '/' then [] else cwd.value, Components(name, 0), limit)
      case None => None
      case Some(stack) => Some(Rendered(stack))
  }

  // ----- properties

  lemma {:induction false} PushedOrdinary(stack: seq<string>, c: string, limit: nat)
    requires AllOrdinary(stack) && IsComponent(c)
    ensures Pushed(stack, c, limit).Some? ==> AllOrdinary(Pushed(stack, c, limit).value)
  {
  }

  lemma {:induction false} ResolvedOrdinary(stack: seq<string>, cs: seq<string>, limit: nat)
    requires AllOrdinary(stack) && forall k :: 0 <= k < |cs| ==> IsComponent(cs[k])
    ensures Resolved(stack, cs, limit).Some? ==> AllOrdinary(Resolved(stack, cs, limit).value)
    decreases |cs|
  {
    hide Pushed, IsComponent, AllOrdinary;
    if cs != [] {
      PushedOrdinary(stack, cs[0], limit);
      if Pushed(stack, cs[0], limit).Some? {
        ResolvedOrdinary(Pushed(stack, cs[0], limit).value, cs[1..], limit);
      }
    }
  }

  lemma {:induction false} SlashEndOfSuffix(name: string, cut: nat, i: nat)
    requires cut + i <= |name|
    ensures SlashEnd(name, cut + i) == cut + SlashEnd(name[cut..], i)
    decreases |name| - i
  {
    if cut + i < |name| {
      SlashEndOfSuffix(name, cut, i + 1);
    }
  }

  lemma {:induction false} ComponentEndOfSuffix(name: string, cut: nat, i: nat)
    requires cut + i <= |name|
    ensures ComponentEnd(name, cut + i) == cut + ComponentEnd(name[cut..], i)
    decreases |name| - i
  {
    if cut + i < |name| {
      ComponentEndOfSuffix(name, cut, i + 1);
    }
  }

  lemma {:induction false} ComponentsOfSuffix(name: string, cut: nat, i: nat)
    requires cut + i <= |name|
    ensures Components(name, cut + i) == Components(name[cut..], i)
    decreases |name| - i
  {
    hide SlashEnd, ComponentEnd, Components;
    SlashEndOfSuffix(name, cut, i);
    ComponentsNext(name, cut + i);
    ComponentsNext(name[cut..], i);
    var start := SlashEnd(name[cut..], i);
    if cut + start < |name| {
      ComponentEndOfSuffix(name, cut, start);
      var end := ComponentEnd(name[cut..], start);
      assert name[cut..][start..end] == name[cut + start..cut + end];
      ComponentsOfSuffix(name, cut, end);
    }
  }

  lemma {:induction false} ComponentsNext(name: string, i: nat)
    requires i <= |name|
    ensures var start := SlashEnd(name, i); var end := ComponentEnd(name, start);
            i <= start <= end && (start < |name| ==> start < end) &&
            Components(name, i) == if start == |name| then [] else [name[start..end]] + Components(name, end)
  {
  }

  /** A component at the front of a name. */
  lemma {:induction false} FirstComponent(c: string, rest: string)
    requires IsComponent(c) && (rest == "" || rest[0] == '/')
    ensures Components("/" + c + rest, 0) == [c] + Components(rest, 0)
  {
    var name := "/" + c + rest;
    SlashEndIs(name, 0, 1);
    ComponentEndIs(name, 1, 1 + |c|);
    assert name[1..1 + |c|] == c && name[1 + |c|..] == rest;
    ComponentsOfSuffix(name, 1 + |c|, 0);
  }

  lemma {:induction false} SlashEndIs(name: string, i: nat, j: nat)
    requires i <= j <= |name| && (j < |name| ==> name[j] != '/') && forall k :: i <= k < j ==> name[k] == '/'
    ensures SlashEnd(name, i) == j
  {
    var m := SlashEnd(name, i);
    assert m < |name| ==> name[m] != '/';
  }

  lemma {:induction false} ComponentEndIs(name: string, i: nat, j: nat)
    requires i <= j <= |name| && (j < |name| ==> name[j] == '/') && forall k :: i <= k < j ==> name[k] != '/'
    ensures ComponentEnd(name, i) == j
  {
    var m := ComponentEnd(name, i);
    assert m < |name| ==> name[m] == '/';
  }

  lemma {:induction false} BodyCons(c: string, stack: seq<string>)
    ensures Body([c] + stack) == "/" + c + Body(stack)
  {
    if stack == [] {
      assert [c] + stack == [c] && [c][..0] == [];
      assert Body([c]) == Body([]) + "/" + c;
    } else {
      assert ([c] + stack)[..|stack|] == [c] + stack[..|stack| - 1];
      BodyCons(c, stack[..|stack| - 1]);
    }
  }

  lemma {:induction false} BodyStart(stack: seq<string>)
    ensures stack == [] ==> Body(stack) == ""
    ensures stack != [] ==> Body(stack) != "" && Body(stack)[0] == '/'
  {
    if stack != [] {
      BodyStart(stack[..|stack| - 1]);
    }
  }

  /** The components of a rendered name are what it was rendered from. */
  lemma {:induction false} ComponentsOfBody(stack: seq<string>)
    requires AllOrdinary(stack)
    ensures Components(Body(stack), 0) == stack
  {
    if stack != [] {
      var c, rest := stack[0], stack[1..];
      assert stack == [c] + rest;
      BodyCons(c, rest);
      BodyStart(rest);
      ComponentsOfBody(rest);
      FirstComponent(c, Body(rest));
    }
  }

  lemma {:induction false} BodyGrows(stack: seq<string>, more: seq<string>)
    ensures |Body(stack)| <= |Body(stack + more)|
  {
    if more == [] {
      assert stack + more == stack;
    } else {
      assert (stack + more)[..|stack + more| - 1] == stack + more[..|more| - 1];
      BodyGrows(stack, more[..|more| - 1]);
    }
  }

  /** Pushing ordinary components that fit puts them all on the stack. */
  lemma {:induction false} ResolveFitting(stack: seq<string>, cs: seq<string>, limit: nat)
    requires AllOrdinary(cs) && |Body(stack + cs)| < limit
    ensures Resolved(stack, cs, limit) == Some(stack + cs)
    decreases |cs|
  {
    if cs == [] {
      assert stack + cs == stack;
    } else {
      assert stack + cs == (stack + [cs[0]]) + cs[1..];
      BodyGrows(stack + [cs[0]], cs[1..]);
      assert (stack + [cs[0]])[..|stack|] == stack;
      ResolveFitting(stack + [cs[0]], cs[1..], limit);
    }
  }

  /** Every answer is shorter than the limit. */
  lemma {:induction false} ResolvedFits(stack: seq<string>, cs: seq<string>, limit: nat)
    requires |Body(stack)| < limit
    ensures Resolved(stack, cs, limit).Some? ==> |Body(Resolved(stack, cs, limit).value)| < limit
    decreases |cs|
  {
    if cs != [] && Pushed(stack, cs[0], limit).Some? {
      var next := Pushed(stack, cs[0], limit).value;
      PushedFits(stack, cs[0], limit);
      ResolvedFits(next, cs[1..], limit);
    }
  }

  lemma {:induction false} PushedFits(stack: seq<string>, c: string, limit: nat)
    requires |Body(stack)| < limit
    ensures Pushed(stack, c, limit).Some? ==> |Body(Pushed(stack, c, limit).value)| < limit
  {
    if c != "." && c != ".." {
      assert (stack + [c])[..|stack|] == stack;
    }
  }

  /** An answer begins with a slash, and is made of ordinary components only. */
  lemma {:induction false} AnswerIsClean(name: string, cwd: Option<seq<string>>, limit: nat)
    requires limit > 1 && (cwd.Some? ==> AllOrdinary(cwd.value) && |Body(cwd.value)| < limit)
    ensures var a := Absolute(name, cwd, limit);
            a.Some? ==> a.value != "" && a.value[0] == '/' && |a.value| < limit &&
                        (a.value == "/" || a.value[|a.value| - 1] != '/') && AllOrdinary(Components(a.value, 0))
  {
    var a := Absolute(name, cwd, limit);
    if a.Some? {
      var stack := if name[0] == '/' then [] else cwd.value;
      var cs := Components(name, 0);
      hide Components, Resolved;
      ResolvedOrdinary(stack, cs, limit);
      ResolvedFits(stack, cs, limit);
      CleanRendered(Resolved(stack, cs, limit).value);
    }
  }

  lemma {:induction false} CleanRendered(stack: seq<string>)
    requires AllOrdinary(stack)
    ensures var r := Rendered(stack); r != "" && r[0] == '/' && (r == "/" || r[|r| - 1] != '/') && Components(r, 0) == stack
  {
    if stack == [] {
      SlashEndIs("/", 0, 1);
    } else {
      BodyStart(stack);
      ComponentsOfBody(stack);
      assert Ordinary(stack[|stack| - 1]);
    }
  }

  /** Answering again changes nothing. */
  lemma {:induction false} Idempotent(name: string, cwd: Option<seq<string>>, again: Option<seq<string>>, limit: nat)
    requires limit > 1 && (cwd.Some? ==> AllOrdinary(cwd.value) && |Body(cwd.value)| < limit)
    ensures var a := Absolute(name, cwd, limit); a.Some? ==> Absolute(a.value, again, limit) == a
  {
    var a := Absolute(name, cwd, limit);
    if a.Some? {
      var stack := if name[0] == '/' then [] else cwd.value;
      var cs := Components(name, 0);
      hide Components, Resolved, AllOrdinary;
      ResolvedOrdinary(stack, cs, limit);
      ResolvedFits(stack, cs, limit);
      var r := Resolved(stack, cs, limit).value;
      CleanRendered(r);
      assert [] + r == r;
      ResolveFitting([], r, limit);
    }
  }

  // ----- what the special components do, on names

  lemma {:induction false} ComponentsAppend(a: string, t: string, i: nat)
    requires i <= |a| && (t == "" || t[0] == '/')
    ensures Components(a + t, i) == Components(a, i) + Components(t, 0)
    decreases |a| - i
  {
    hide Components, SlashEnd, ComponentEnd;
    var start := SlashEnd(a, i);
    ComponentsNext(a, i);
    ComponentsNext(a + t, i);
    if start == |a| {
      SlashEndJoined(a, t, i);
      ComponentsNext(a + t, |a|);
      ComponentsOfSuffix(a + t, |a|, 0);
      assert (a + t)[|a|..] == t;
    } else {
      var end := ComponentEnd(a, start);
      SlashEndIs(a + t, i, start);
      ComponentEndIs(a + t, start, end);
      ComponentsAppend(a, t, end);
      assert (a + t)[start..end] == a[start..end];
    }
  }

  lemma {:induction false} SlashEndJoined(a: string, t: string, i: nat)
    requires i <= |a| && SlashEnd(a, i) == |a|
    ensures SlashEnd(a + t, i) == SlashEnd(a + t, |a|)
    decreases |a| - i
  {
    if i < |a| {
      SlashEndJoined(a, t, i + 1);
    }
  }

  lemma {:induction false} ResolvedAppend(stack: seq<string>, xs: seq<string>, ys: seq<string>, limit: nat)
    ensures Resolved(stack, xs + ys, limit) ==
            match Resolved(stack, xs, limit)
            case None => None
            case Some(m) => Resolved(m, ys, limit)
    decreases |xs|
  {
    hide Pushed;
    if xs == [] {
      assert xs + ys == ys;
    } else {
      assert (xs + ys)[1..] == xs[1..] + ys;
      match Pushed(stack, xs[0], limit)
      case None =>
      case Some(next) => ResolvedAppend(next, xs[1..], ys, limit);
    }
  }

  lemma {:induction false} ResolvedOne(stack: seq<string>, c: string, limit: nat)
    ensures Resolved(stack, [c], limit) == Pushed(stack, c, limit)
  {
    hide Pushed;
    assert [c][1..] == [];
  }

  /** What comes behind a part of a name is resolved from where that part leads. */
  lemma {:induction false} AbsoluteFrom(prefix: string, tail: string, cwd: Option<seq<string>>, limit: nat, stack: seq<string>)
    requires tail != "" && tail[0] == '/' && (prefix == "" || prefix[0] == '/' || cwd.Some?)
    requires stack == if prefix == "" || prefix[0] == '/' then [] else cwd.value
    ensures Absolute(prefix + tail, cwd, limit) ==
            match Resolved(stack, Components(prefix, 0), limit)
            case None => None
            case Some(m) => match Resolved(m, Components(tail, 0), limit) case None => None case Some(n) => Some(Rendered(n))
  {
    hide Components, Resolved, Rendered;
    ComponentsAppend(prefix, tail, 0);
    ResolvedAppend(stack, Components(prefix, 0), Components(tail, 0), limit);
    assert (prefix + tail)[0] == if prefix == "" then '/' else prefix[0];
  }

  lemma {:induction false} TailComponents(c: string, tail: string)
    requires IsComponent(c) && (tail == "" || tail[0] == '/')
    ensures Components("/" + c + tail, 0) == [c] + Components(tail, 0)
    ensures Components("/" + tail, 0) == Components(tail, 0)
  {
    hide Components;
    FirstComponent(c, tail);
    ComponentsAppend("/", tail, 0);
    ComponentsNext("/", 0);
    SlashEndIs("/", 0, 1);
    assert [] + Components(tail, 0) == Components(tail, 0);
  }

  /** A "." and one of two slashes are as good as not there. */
  lemma {:induction false} DotIsNothing(prefix: string, tail: string, cwd: Option<seq<string>>, limit: nat)
    requires (tail == "" || tail[0] == '/') && (prefix == "" || prefix[0] == '/' || cwd.Some?)
    ensures Absolute(prefix + ("/." + tail), cwd, limit) == Absolute(prefix + ("/" + tail), cwd, limit)
  {
    hide Components, Resolved, Rendered, Absolute;
    var stack := if prefix == "" || prefix[0] == '/' then [] else cwd.value;
    AbsoluteFrom(prefix, "/." + tail, cwd, limit, stack);
    AbsoluteFrom(prefix, "/" + tail, cwd, limit, stack);
    assert "/" + "." + tail == "/." + tail;
    TailComponents(".", tail);
    match Resolved(stack, Components(prefix, 0), limit)
    case None =>
    case Some(m) =>
      ResolvedAppend(m, ["."], Components(tail, 0), limit);
      ResolvedOne(m, ".", limit);
  }

  /** A component and the ".." behind it are as good as not there, if the name does not get too long. */
  lemma {:induction false} ParentCancels(prefix: string, c: string, tail: string, cwd: Option<seq<string>>, limit: nat)
    requires Ordinary(c) && (tail == "" || tail[0] == '/') && (prefix == "" || prefix[0] == '/' || cwd.Some?)
    ensures var a := Absolute(prefix + ("/" + c + ("/.." + tail)), cwd, limit);
            a.Some? ==> a == Absolute(prefix + ("/" + tail), cwd, limit)
  {
    hide Components, Resolved, Rendered, Absolute, Body;
    var stack := if prefix == "" || prefix[0] == '/' then [] else cwd.value;
    AbsoluteFrom(prefix, "/" + c + ("/.." + tail), cwd, limit, stack);
    AbsoluteFrom(prefix, "/" + tail, cwd, limit, stack);
    assert "/" + ".." + tail == "/.." + tail;
    TailComponents("..", tail);
    TailComponents(c, "/.." + tail);
    match Resolved(stack, Components(prefix, 0), limit)
    case None =>
    case Some(m) =>
      ResolvedAppend(m, [c], [".."] + Components(tail, 0), limit);
      ResolvedOne(m, c, limit);
      ResolvedAppend(m + [c], [".."], Components(tail, 0), limit);
      ResolvedOne(m + [c], "..", limit);
      assert (m + [c])[..|m + [c]| - 1] == m;
  }

  /** A ".." at the root stays there. */
  lemma {:induction false} ParentOfRoot(tail: string, cwd: Option<seq<string>>, limit: nat)
    requires tail == "" || tail[0] == '/'
    ensures Absolute("/.." + tail, cwd, limit) == Absolute("/" + tail, cwd, limit)
  {
    hide Components, Resolved, Rendered;
    assert "/" + ".." + tail == "/.." + tail;
    TailComponents("..", tail);
    ResolvedAppend([], [".."], Components(tail, 0), limit);
    ResolvedOne([], "..", limit);
  }

  /** A name that does not begin with a slash is one in the starting directory. */
  lemma {:induction false} RelativeToStart(name: string, cwd: seq<string>, limit: nat)
    requires name != "" && name[0] != '/' && AllOrdinary(cwd) && |Body(cwd)| < limit
    ensures Absolute(name, Some(cwd), limit) == Absolute(Rendered(cwd) + ("/" + name), None, limit)
  {
    CleanRendered(cwd);
    hide Components, Resolved, Rendered, Absolute, Body, AllOrdinary;
    AbsoluteFrom(Rendered(cwd), "/" + name, None, limit, []);
    assert [] + cwd == cwd;
    ResolveFitting([], cwd, limit);
    SlashInFront(name);
    RelativeIs(name, cwd, limit);
  }

  lemma {:induction false} RelativeIs(name: string, cwd: seq<string>, limit: nat)
    requires name != "" && name[0] != '/'
    ensures Absolute(name, Some(cwd), limit) ==
            match Resolved(cwd, Components(name, 0), limit) case None => None case Some(n) => Some(Rendered(n))
  {
    hide Components, Resolved, Rendered;
  }

  lemma {:induction false} SlashInFront(name: string)
    requires name != "" && name[0] != '/'
    ensures Components("/" + name, 0) == Components(name, 0)
  {
    hide Components;
    var full := "/" + name;
    SlashEndIs(full, 0, 1);
    SlashEndIs(full, 1, 1);
    ComponentsNext(full, 0);
    ComponentsNext(full, 1);
    ComponentsOfSuffix(full, 1, 0);
    assert full[1..] == name;
  }

  // ----- the same in a buffer

  /** The buffer shows the stack, perhaps with a slash behind it that a ".." left. */
  ghost predicate Shows(text: string, stack: seq<string>) {
    AllOrdinary(stack) && (text == Rendered(stack) || text == Body(stack) + "/")
  }

  lemma {:induction false} ShowsSize(text: string, stack: seq<string>)
    requires Shows(text, stack)
    ensures text != "" && text[0] == '/' && |Body(stack)| <= |text| <= |Body(stack)| + 1
    ensures text[|text| - 1] == '/' <==> text == Body(stack) + "/"
    ensures text[|text| - 1] != '/' ==> text == Body(stack) && stack != []
  {
    BodyStart(stack);
    if stack != [] {
      assert Ordinary(stack[|stack| - 1]);
    }
  }

  /** Back up to the component before; the scan ends at a slash, the leading one at the latest. */
  method BackUp(apath: array<char>, from: nat, ghost stack: seq<string>) returns (dest: nat)
    requires from <= apath.Length && Shows(apath[..from], stack) && stack != []
    ensures 1 <= dest < from && Shows(apath[..dest], stack[..|stack| - 1])
  {
    ghost var init, last := stack[..|stack| - 1], stack[|stack| - 1];
    LastComponent(apath[..from], stack);
    BodyStart(init);
    dest := from - 1;
    while apath[dest - 1] != '/'
      invariant |Body(init)| + 1 <= dest < from
      invariant dest - 1 < |Body(init)| + 1 + |last|
      decreases dest
    {
      assert apath[dest - 1] == apath[..from][dest - 1];
      dest := dest - 1;
    }
    assert apath[dest - 1] == apath[..from][dest - 1];
    assert dest == |Body(init)| + 1;
    assert apath[..dest] == apath[..from][..dest] == Body(init) + "/";
    assert AllOrdinary(init);
  }

  lemma {:induction false} LastComponent(text: string, stack: seq<string>)
    requires Shows(text, stack) && stack != []
    ensures var b, last := Body(stack[..|stack| - 1]), stack[|stack| - 1];
            last != "" && |b| + 1 + |last| <= |text| <= |b| + 2 + |last| && text[..|b| + 1] == b + "/" &&
            forall k :: |b| + 1 <= k < |b| + 1 + |last| ==> text[k] == last[k - |b| - 1] != '/'
  {
    assert Ordinary(stack[|stack| - 1]);
  }

  /** Appends a component, if it fits. */
  method Append(apath: array<char>, from: nat, c: string, ghost stack: seq<string>) returns (ok: bool, dest: nat)
    requires from < apath.Length && Shows(apath[..from], stack) && Ordinary(c)
    modifies apath
    ensures ok == Pushed(stack, c, apath.Length).Some?
    ensures ok ==> dest < apath.Length && Shows(apath[..dest], stack + [c])
  {
    ShowsSize(apath[..from], stack);
    hide Shows, Rendered, Body, Ordinary;
    dest := from;
    if apath[dest - 1] != '/' {
      assert apath[..from][from - 1] != '/';
      apath[dest] := '/';
      dest := dest + 1;
    }
    ghost var base := apath[..dest];
    assert base == Body(stack) + "/";
    PushedLonger(stack, c, apath.Length);
    if dest + |c| >= apath.Length {
      return false, dest;
    }
    forall k | 0 <= k < |c| {
      apath[dest + k] := c[k];
    }
    dest := dest + |c|;
    apath[dest] := '\0';
    assert apath[..dest] == base + c;
    ShowsMore(apath[..from], stack, c);
    ok := true;
  }

  lemma {:induction false} PushedLonger(stack: seq<string>, c: string, limit: nat)
    requires Ordinary(c)
    ensures Pushed(stack, c, limit).Some? <==> |Body(stack)| + 1 + |c| < limit
  {
  }

  lemma {:induction false} ShowsMore(text: string, stack: seq<string>, c: string)
    requires AllOrdinary(stack) && Ordinary(c)
    ensures Shows(Body(stack) + "/" + c, stack + [c])
  {
    assert (stack + [c])[..|stack|] == stack;
    assert AllOrdinary(stack + [c]);
  }

  // ----- the scan of the name

  method ScanSlashes(name: string, i: nat) returns (j: nat)
    requires i <= |name|
    ensures j == SlashEnd(name, i)
  {
    j := i;
    while j < |name| && name[j] == '/'
      invariant i <= j <= |name| && SlashEnd(name, j) == SlashEnd(name, i)
    {
      j := j + 1;
    }
  }

  method ScanComponent(name: string, i: nat) returns (j: nat)
    requires i <= |name|
    ensures j == ComponentEnd(name, i)
  {
    j := i;
    while j < |name| && name[j] != '/'
      invariant i <= j <= |name| && ComponentEnd(name, j) == ComponentEnd(name, i)
    {
      j := j + 1;
    }
  }

  /** One component of the name. */
  method Enter(apath: array<char>, from: nat, c: string, ghost stack: seq<string>) returns (ok: bool, dest: nat)
    requires from < apath.Length && Shows(apath[..from], stack) && IsComponent(c)
    modifies apath
    ensures ok == Pushed(stack, c, apath.Length).Some?
    ensures ok ==> dest < apath.Length && Shows(apath[..dest], Pushed(stack, c, apath.Length).value)
  {
    ShowsSize(apath[..from], stack);
    ok, dest := true, from;
    if c == "." {
    } else if c == ".." {
      hide Body;
      if dest > 1 {
        RootOrMore(apath[..from], stack);
        dest := BackUp(apath, from, stack);
      } else {
        RootOrMore(apath[..from], stack);
      }
    } else {
      ok, dest := Append(apath, from, c, stack);
    }
  }

  /** Only the root is shown by one character. */
  lemma {:induction false} RootOrMore(text: string, stack: seq<string>)
    requires Shows(text, stack)
    ensures |text| > 1 <==> stack != []
  {
    BodyStart(stack);
    if stack != [] {
      assert Ordinary(stack[|stack| - 1]);
    }
  }

  /** The buffer holds a string, with its null. */
  predicate Holds(buf: seq<char>, s: string) {
    |s| < |buf| && buf[..|s|] == s && buf[|s|] == '\0'
  }

  /** Begins with the root, or with the starting directory. */
  method Begin(name: string, starting: Option<string>, apath: array<char>, ghost cwd: Option<seq<string>>) returns (dest: nat)
    requires apath.Length > 1 && name != "" && (starting.Some? <==> cwd.Some?) && (name[0] == '/' || starting.Some?)
    requires cwd.Some? ==> AllOrdinary(cwd.value) && starting.value == Rendered(cwd.value) && |starting.value| < apath.Length
    modifies apath
    ensures dest < apath.Length && Shows(apath[..dest], if name[0] == '/' then [] else cwd.value)
  {
    hide Shows, Body, Rendered, AllOrdinary;
    if name[0] != '/' {
      var cwdName := starting.value;
      forall k | 0 <= k < |cwdName| {
        apath[k] := cwdName[k];
      }
      dest := |cwdName|;
      assert apath[..dest] == cwdName;
      RenderedShows(apath[..dest], cwd.value);
    } else {
      apath[0] := '/';
      dest := 1;
      assert apath[..dest] == "/";
      RootRendered();
      RenderedShows(apath[..dest], []);
    }
  }

  /** The absolute name of `name`.  The starting directory is itself absolute and clean. */
  method AbsPath(name: string, starting: Option<string>, apath: array<char>, ghost cwd: Option<seq<string>>) returns (ok: bool)
    requires apath.Length > 1 && (starting.Some? <==> cwd.Some?)
    requires cwd.Some? ==> AllOrdinary(cwd.value) && starting.value == Rendered(cwd.value) && |starting.value| < apath.Length
    modifies apath
    ensures ok == Absolute(name, cwd, apath.Length).Some?
    ensures ok ==> Holds(apath[..], Absolute(name, cwd, apath.Length).value)
  {
    hide Components, Resolved, Shows, Body, Rendered, Pushed, AllOrdinary, Holds;
    if name == "" {
      return false;
    }
    if name[0] != '/' && starting.None? {
      return false;
    }
    var dest: nat := Begin(name, starting, apath, cwd);
    ghost var stack := if name[0] == '/' then [] else cwd.value;
    ghost var goal := Resolved(stack, Components(name, 0), apath.Length);
    var start := 0;
    while start < |name|
      invariant start <= |name| && dest < apath.Length && Shows(apath[..dest], stack)
      invariant Resolved(stack, Components(name, start), apath.Length) == goal
      decreases |name| - start
    {
      ComponentsStep(stack, name, start, apath.Length);
      start := ScanSlashes(name, start);
      var end := ScanComponent(name, start);
      if end - start == 0 {
        break;
      }
      ok, dest := Enter(apath, dest, name[start..end], stack);
      if !ok {
        return;
      }
      stack := Pushed(stack, name[start..end], apath.Length).value;
      start := end;
    }
    NoComponents(stack, name, apath.Length);
    Terminate(apath, dest, stack);
    ok := true;
  }

  /** Strips a slash at the end unless it is the root. */
  method Terminate(apath: array<char>, end: nat, ghost stack: seq<string>)
    requires end < apath.Length && Shows(apath[..end], stack)
    modifies apath
    ensures Holds(apath[..], Rendered(stack))
  {
    hide Shows, Rendered, Body;
    var dest := end;
    ShowsSize(apath[..dest], stack);
    StripSlash(apath[..dest], stack);
    if dest > 1 && apath[dest - 1] == '/' {
      dest := dest - 1;
    }
    apath[dest] := '\0';
  }

  lemma {:induction false} RootRendered()
    ensures Rendered([]) == "/" && AllOrdinary([])
  {
  }

  lemma {:induction false} RenderedShows(text: string, stack: seq<string>)
    requires AllOrdinary(stack) && text == Rendered(stack)
    ensures Shows(text, stack)
  {
  }

  /** The components from `i` on: none, or the next and those behind it. */
  lemma {:induction false} ComponentsStep(stack: seq<string>, name: string, i: nat, limit: nat)
    requires i <= |name|
    ensures var start := SlashEnd(name, i); var end := ComponentEnd(name, start);
            if start == end then start == |name| && Components(name, i) == Components(name, |name|)
            else i < end && IsComponent(name[start..end]) &&
                 Resolved(stack, Components(name, i), limit) ==
                   match Pushed(stack, name[start..end], limit)
                   case None => None
                   case Some(next) => Resolved(next, Components(name, end), limit)
  {
    hide Pushed;
    var start := SlashEnd(name, i);
    if start < |name| {
      var end := ComponentEnd(name, start);
      assert Components(name, i) == [name[start..end]] + Components(name, end);
      assert Components(name, i)[1..] == Components(name, end);
      assert IsComponent(Components(name, i)[0]);
    } else {
      assert Components(name, i) == [];
      assert SlashEnd(name, |name|) == |name|;
    }
  }

  lemma {:induction false} NoComponents(stack: seq<string>, name: string, limit: nat)
    ensures Resolved(stack, Components(name, |name|), limit) == Some(stack)
  {
    assert SlashEnd(name, |name|) == |name|;
  }

  /** The trailing slash, unless it is the root, is not part of the name. */
  lemma {:induction false} StripSlash(text: string, stack: seq<string>)
    requires Shows(text, stack)
    ensures text != "" &&
            (if |text| > 1 && text[|text| - 1] == '/' then text[..|text| - 1] else text) == Rendered(stack)
  {
    ShowsSize(text, stack);
    RootOrMore(text, stack);
  }
}
