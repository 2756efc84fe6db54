/** The text functions filter and filter-out: patterns run over a word list, with literal
    patterns looked up in a hash table of chained equal words when that pays. */
module Filter {
  import opened Wrappers
  import opened ProbeMath
  import opened Slots
  import opened RoundUp
  import opened HashTables
  import opened Tokens

  /** A chopped-up pattern.  `str` is the text after the unquoting done while looking for the
      percent sign, and `length` the length from before, so `length` can exceed `|str|`. */
  datatype Pattern = Pattern(str: string, percent: Option<nat>, length: nat)

  predicate WellFormed(p: Pattern) {
    |p.str| <= p.length && (p.percent.Some? ==> p.percent.value < |p.str|)
  }

  /** Keys of the word table: the text and the recorded length. */
  datatype WordKey = WordKey(text: string, length: nat)

  function KeyOf(w: string): WordKey {
    WordKey(w, |w|)
  }

  /** C's comparison of at most `n` characters of strings without inner nulls. */
  predicate StrNEq(a: string, b: string, n: nat) {
    a[..if n < |a| then n else |a|] == b[..if n < |b| then n else |b|]
  }

  /** pattern_matches, for a pattern whose percent sign has been found.  It holds exactly when
      some stem put in place of the percent sign gives the word. */
  predicate PatternMatches(pattern: string, percent: nat, w: string): (r: bool)
    requires percent < |pattern|
    ensures r <==> exists stem :: w == pattern[..percent] + stem + pattern[percent + 1..]
  {
    var sfxlen := |pattern| - percent - 1;
    var r := if |w| < percent + sfxlen || !StrNEq(pattern, w, percent) then false
             else pattern[percent + 1..] == w[|w| - sfxlen..];
    assert r ==> w == pattern[..percent] + w[percent..|w| - sfxlen] + pattern[percent + 1..];
    r
  }

  /** A word matches a pattern. */
  predicate Matches(p: Pattern, w: string)
    requires WellFormed(p)
  {
    if p.percent.Some? then PatternMatches(p.str, p.percent.value, w)
    else |w| == p.length && w == p.str
  }

  predicate MatchesAny(pats: seq<Pattern>, w: string)
    requires forall p :: p in pats ==> WellFormed(p)
  {
    exists p :: p in pats && Matches(p, w)
  }

  /** The words that filter (or filter-out, when `isFilter` is false) keeps, in order. */
  function Kept(pats: seq<Pattern>, ws: seq<string>, isFilter: bool): seq<string>
    requires forall p :: p in pats ==> WellFormed(p)
  {
    if ws == [] then []
    else (if MatchesAny(pats, ws[0]) == isFilter then [ws[0]] else []) + Kept(pats, ws[1..], isFilter)
  }

  /** The greatest position below `n` that holds the word `w`. */
  function LastBefore(ws: seq<string>, n: nat, w: string): (r: Option<nat>)
    requires n <= |ws|
    ensures r.Some? ==> r.value < n && ws[r.value] == w
  {
    if n == 0 then None
    else if ws[n - 1] == w then Some(n - 1)
    else LastBefore(ws, n - 1, w)
  }

  lemma {:induction false} LastBeforeIsLast(ws: seq<string>, n: nat, w: string)
    requires n <= |ws|
    ensures var r := LastBefore(ws, n, w);
            forall j :: (if r.Some? then r.value + 1 else 0) <= j < n ==> ws[j] != w
  {
    if n > 0 {
      LastBeforeIsLast(ws, n - 1, w);
    }
  }

  /** Words as the table sees them: positions, keyed by text and length. */
  function WordHashing(ws: seq<string>, hash1: string -> nat, hash2: string -> nat): Hashing<WordKey, nat> {
    Hashing((i: nat) => KeyOf(if i < |ws| then ws[i] else ""),
            (k: WordKey) => hash1(k.text), (k: WordKey) => hash2(k.text))
  }

  /** What the table holds for a key after the first `n` words: the last position of the word. */
  ghost function Expected(ws: seq<string>, n: nat, k: WordKey): Option<nat>
    requires n <= |ws|
  {
    if |k.text| == k.length then LastBefore(ws, n, k.text) else None
  }

  ghost predicate Indexed(m: map<WordKey, nat>, ws: seq<string>, n: nat)
    requires n <= |ws|
  {
    forall k :: (if k in m then Some(m[k]) else None) == Expected(ws, n, k)
  }

  /** `chain[j]` is the previous position of the word at position `j`. */
  ghost predicate Chained(ws: seq<string>, chain: seq<Option<nat>>) {
    |chain| <= |ws| && forall j :: 0 <= j < |chain| ==> chain[j] == LastBefore(ws, j, ws[j])
  }

  /** The finished table and chains. */
  ghost predicate WordIndex(table: HashTable<WordKey, nat>, chain: seq<Option<nat>>, ws: seq<string>)
    reads table, table.vec
  {
    table.Roomy(|ws| + 1, |ws|) && Indexed(table.contents, ws, |ws|) && |chain| == |ws| && Chained(ws, chain)
  }

  /** Entering the next word: the item it displaces is the previous word of the same text. */
  lemma {:induction false} IndexNext(m: map<WordKey, nat>, ws: seq<string>, n: nat)
    requires n < |ws| && Indexed(m, ws, n)
    ensures Indexed(m[KeyOf(ws[n]) := n], ws, n + 1)
    ensures (if KeyOf(ws[n]) in m then Some(m[KeyOf(ws[n])]) else None) == LastBefore(ws, n, ws[n])
  {
    assert Expected(ws, n, KeyOf(ws[n])) == LastBefore(ws, n, ws[n]);
    forall k
      ensures Expected(ws, n + 1, k) == if k == KeyOf(ws[n]) then Some(n) else Expected(ws, n, k)
    {
    }
  }

  method EmptyWordTable(ws: seq<string>, hash1: string -> nat, hash2: string -> nat)
      returns (table: HashTable<WordKey, nat>)
    requires |ws| < 0x4000_0000
    ensures fresh(table) && fresh(table.vec) && table.hs == WordHashing(ws, hash1, hash2)
    ensures table.Roomy(|ws| + 1, 0) && Indexed(table.contents, ws, 0)
  {
    table := new HashTable(|ws|, WordHashing(ws, hash1, hash2));
  }

  lemma {:induction false} ChainedNone(ws: seq<string>)
    ensures Chained(ws, [])
  {
  }

  lemma {:induction false} ChainedNext(ws: seq<string>, chain: seq<Option<nat>>, next: Option<nat>)
    requires Chained(ws, chain) && |chain| < |ws| && next == LastBefore(ws, |chain|, ws[|chain|])
    ensures Chained(ws, chain + [next])
  {
    hide LastBefore;
  }

  /** Build the table of words and the chains of equal words. */
  method HashWords(ws: seq<string>, hash1: string -> nat, hash2: string -> nat)
      returns (table: HashTable<WordKey, nat>, chain: seq<Option<nat>>)
    requires |ws| < 0x4000_0000
    ensures fresh(table) && fresh(table.vec) && WordIndex(table, chain, ws)
  {
    hide table.Roomy, Indexed, LastBefore, Chained;
    table := EmptyWordTable(ws, hash1, hash2);
    chain := [];
    ChainedNone(ws);
    for i := 0 to |ws|
      invariant fresh(table) && fresh(table.vec) && table.hs == WordHashing(ws, hash1, hash2)
      invariant table.Roomy(|ws| + 1, i) && Indexed(table.contents, ws, i)
      invariant |chain| == i && Chained(ws, chain)
    {
      var displaced := InsertWord(table, ws, i);
      ChainedNext(ws, chain, displaced);
      chain := chain + [displaced];
    }
  }

  method InsertWord(table: HashTable<WordKey, nat>, ws: seq<string>, i: nat) returns (displaced: Option<nat>)
    requires i < |ws| < 0x4000_0000 && table.hs.key(i) == KeyOf(ws[i])
    requires table.Roomy(|ws| + 1, i) && Indexed(table.contents, ws, i)
    modifies table, table.vec
    ensures table.vec == old(table.vec) || fresh(table.vec)
    ensures table.Roomy(|ws| + 1, i + 1) && Indexed(table.contents, ws, i + 1)
    ensures displaced == LastBefore(ws, i, ws[i])
  {
    table.RoomySearch(|ws| + 1, i, KeyOf(ws[i]));
    IndexNext(table.contents, ws, i);
    displaced := table.Insert(i);
    if table.size < TWO_TO_32 {
      Pow2Below32(table.size);
    }
  }

  /** A literal pattern found in the table kills every word of its chain. */
  method MarkChain(ws: seq<string>, chain: seq<Option<nat>>, matched: array<bool>, first: Option<nat>, ghost w: string)
    requires matched.Length == |ws| == |chain| && first == LastBefore(ws, |ws|, w)
    requires Chained(ws, chain)
    modifies matched
    ensures forall j :: 0 <= j < |ws| ==> matched[j] == (old(matched[j]) || ws[j] == w)
  {
    var wp := first;
    ghost var n: nat, was := |ws|, matched[..];
    while wp.Some?
      invariant n <= |ws| && wp == LastBefore(ws, n, w)
      invariant forall j :: 0 <= j < n ==> matched[j] == was[j]
      invariant forall j :: n <= j < |ws| ==> matched[j] == (was[j] || ws[j] == w)
      decreases n
    {
      LastBeforeIsLast(ws, n, w);
      n := wp.value;
      matched[wp.value] := true;
      wp := chain[wp.value];
    }
    LastBeforeIsLast(ws, n, w);
  }

  /** One pattern is run through the words. */
  method RunPattern(p: Pattern, ws: seq<string>, table: Option<(HashTable<WordKey, nat>, seq<Option<nat>>)>,
                    matched: array<bool>)
    requires WellFormed(p) && matched.Length == |ws|
    requires table.Some? ==> WordIndex(table.value.0, table.value.1, ws)
    modifies matched
    ensures forall j :: 0 <= j < |ws| ==> matched[j] == (old(matched[j]) || Matches(p, ws[j]))
  {
    if p.percent.Some? {
      for i := 0 to |ws|
        invariant forall j :: 0 <= j < i ==> matched[j] == (old(matched[j]) || Matches(p, ws[j]))
        invariant forall j :: i <= j < |ws| ==> matched[j] == old(matched[j])
      {
        matched[i] := matched[i] || PatternMatches(p.str, p.percent.value, ws[i]);
      }
    } else if table.Some? {
      var (t, chain) := table.value;
      t.RoomySearch(|ws| + 1, |ws|, WordKey(p.str, p.length));
      assert Expected(ws, |ws|, WordKey(p.str, p.length)) == if |p.str| == p.length then LastBefore(ws, |ws|, p.str) else None;
      LastBeforeIsLast(ws, |ws|, p.str);
      var first := t.FindItem(WordKey(p.str, p.length));
      if first.Some? {
        MarkChain(ws, chain, matched, first, p.str);
      }
    } else {
      for i := 0 to |ws|
        invariant forall j :: 0 <= j < i ==> matched[j] == (old(matched[j]) || Matches(p, ws[j]))
        invariant forall j :: i <= j < |ws| ==> matched[j] == old(matched[j])
      {
        matched[i] := matched[i] || (|ws[i]| == p.length && StrNEq(p.str, ws[i], |ws[i]|));
        assert |ws[i]| == p.length ==> ws[i][..|ws[i]|] == ws[i];
      }
    }
  }

  /** How many patterns have no percent sign. */
  function Literals(pats: seq<Pattern>): nat {
    if pats == [] then 0
    else Literals(pats[..|pats| - 1]) + (if pats[|pats| - 1].percent.None? then 1 else 0)
  }

  lemma {:induction false} LiteralsOneMore(pats: seq<Pattern>, i: nat)
    requires i < |pats|
    ensures Literals(pats[..i + 1]) == Literals(pats[..i]) + (if pats[i].percent.None? then 1 else 0)
  {
    assert pats[..i + 1][..i] == pats[..i];
  }

  /** Whether a table is worth its cost: the argument lists have to be long enough. */
  predicate UsesTable(pats: seq<Pattern>, ws: seq<string>) {
    Literals(pats) >= 2 && Literals(pats) * |ws| >= 10
  }

  /** The table of the words, if it is worth its cost. */
  method ChooseTable(pats: seq<Pattern>, ws: seq<string>, hash1: string -> nat, hash2: string -> nat)
      returns (table: Option<(HashTable<WordKey, nat>, seq<Option<nat>>)>)
    requires |ws| < 0x4000_0000
    ensures table.Some? <==> UsesTable(pats, ws)
    ensures table.Some? ==> fresh(table.value.0) && fresh(table.value.0.vec) && WordIndex(table.value.0, table.value.1, ws)
  {
    hide WordIndex;
    var literals := 0;
    for i := 0 to |pats|
      invariant literals == Literals(pats[..i])
    {
      LiteralsOneMore(pats, i);
      if pats[i].percent.None? {
        literals := literals + 1;
      }
    }
    assert pats[..|pats|] == pats;
    var hashing := literals >= 2 && literals * |ws| >= 10;
    table := None;
    if hashing {
      var t, chain := HashWords(ws, hash1, hash2);
      table := Some((t, chain));
    }
  }

  /** filter and filter-out on a word list given as text.  The result does not depend on whether
      the hash table is used: it is the kept words, in order and with their repetitions, between
      single spaces. */
  method FilterFilterOut(pats: seq<Pattern>, text: string, isFilter: bool,
                         hash1: string -> nat, hash2: string -> nat) returns (o: string)
    requires (forall p :: p in pats ==> WellFormed(p)) && |Words(text, 0)| < 0x4000_0000
    ensures o == Join(Kept(pats, Words(text, 0), isFilter))
  {
    var ws := ChopWords(text);
    var matched := new bool[|ws|](_ => false);
    var table := ChooseTable(pats, ws, hash1, hash2);
    for i := 0 to |pats|
      invariant forall j :: 0 <= j < |ws| ==> matched[j] == MatchesAny(pats[..i], ws[j])
      modifies matched
    {
      forall j | 0 <= j < |ws|
        ensures MatchesAny(pats[..i + 1], ws[j]) == (MatchesAny(pats[..i], ws[j]) || Matches(pats[i], ws[j]))
      {
        MatchesOneMore(pats, i, ws[j]);
      }
      RunPattern(pats[i], ws, table, matched);
    }
    assert pats[..|pats|] == pats;
    o := OutputWords(pats, ws, matched, isFilter);
  }

  lemma {:induction false} MatchesOneMore(pats: seq<Pattern>, i: nat, w: string)
    requires i < |pats| && forall p :: p in pats ==> WellFormed(p)
    ensures MatchesAny(pats[..i + 1], w) == (MatchesAny(pats[..i], w) || Matches(pats[i], w))
  {
    assert pats[..i + 1] == pats[..i] + [pats[i]];
  }

  /** Words each followed by a space. */
  function Spaced(ws: seq<string>): string {
    if ws == [] then "" else ws[0] + " " + Spaced(ws[1..])
  }

  lemma {:induction false} SpacedIsJoin(ws: seq<string>)
    requires ws != []
    ensures Spaced(ws) == Join(ws) + " "
  {
    if |ws| > 1 {
      SpacedIsJoin(ws[1..]);
    }
  }

  lemma {:induction false} SpacedAppend(ws: seq<string>, vs: seq<string>)
    ensures Spaced(ws + vs) == Spaced(ws) + Spaced(vs)
  {
    if ws == [] {
      assert ws + vs == vs;
    } else {
      assert (ws + vs)[1..] == ws[1..] + vs;
      SpacedAppend(ws[1..], vs);
    }
  }

  lemma {:induction false} KeptAppend(pats: seq<Pattern>, ws: seq<string>, w: string, isFilter: bool)
    requires forall p :: p in pats ==> WellFormed(p)
    ensures Kept(pats, ws + [w], isFilter) ==
            Kept(pats, ws, isFilter) + (if MatchesAny(pats, w) == isFilter then [w] else [])
  {
    if ws != [] {
      assert (ws + [w])[1..] == ws[1..] + [w];
      KeptAppend(pats, ws[1..], w, isFilter);
    }
  }

  lemma {:induction false} NothingKept(pats: seq<Pattern>, ws: seq<string>, isFilter: bool)
    requires forall p :: p in pats ==> WellFormed(p)
    ensures Kept(pats, ws[..0], isFilter) == [] && Spaced(Kept(pats, ws[..0], isFilter)) == ""
    ensures Join([]) == ""
  {
  }

  /** What the next word adds to the output. */
  lemma {:induction false} KeptNext(pats: seq<Pattern>, ws: seq<string>, i: nat, isFilter: bool)
    requires i < |ws| && forall p :: p in pats ==> WellFormed(p)
    ensures var kept, more := Kept(pats, ws[..i], isFilter), Kept(pats, ws[..i + 1], isFilter);
            if MatchesAny(pats, ws[i]) == isFilter then more != [] && Spaced(more) == Spaced(kept) + ws[i] + " " else more == kept
  {
    hide MatchesAny, Kept;
    assert ws[..i + 1] == ws[..i] + [ws[i]];
    KeptAppend(pats, ws[..i], ws[i], isFilter);
    var kept := Kept(pats, ws[..i], isFilter);
    SpacedAppend(kept, [ws[i]]);
    assert Spaced([ws[i]]) == ws[i] + " " + Spaced([]) == ws[i] + " ";
    assert Spaced(kept) + (ws[i] + " ") == Spaced(kept) + ws[i] + " " && kept + [] == kept;
  }

  /** Output the words that matched (or did not, for filter-out), killing the last space. */
  method OutputWords(pats: seq<Pattern>, ws: seq<string>, matched: array<bool>, isFilter: bool) returns (o: string)
    requires forall p :: p in pats ==> WellFormed(p)
    requires matched.Length == |ws| && forall j :: 0 <= j < |ws| ==> matched[j] == MatchesAny(pats, ws[j])
    ensures o == Join(Kept(pats, ws, isFilter))
  {
    hide MatchesAny, Kept, Spaced, Join;
    var doneany := false;
    o := "";
    NothingKept(pats, ws, isFilter);
    for i := 0 to |ws|
      invariant o == Spaced(Kept(pats, ws[..i], isFilter)) && doneany == (Kept(pats, ws[..i], isFilter) != [])
    {
      KeptNext(pats, ws, i, isFilter);
      if if isFilter then matched[i] else !matched[i] {
        o := o + ws[i] + " ";
        doneany := true;
      }
    }
    assert ws[..|ws|] == ws;
    if doneany {
      SpacedIsJoin(Kept(pats, ws, isFilter));
      o := o[..|o| - 1];
    }
  }

  /** filter and filter-out of the same arguments share out the words: each word goes to one of
      the two, and neither reorders or drops any. */
  lemma {:induction false} FilterPartitions(pats: seq<Pattern>, ws: seq<string>)
    requires forall p :: p in pats ==> WellFormed(p)
    ensures multiset(Kept(pats, ws, true)) + multiset(Kept(pats, ws, false)) == multiset(ws)
    ensures forall w :: w in Kept(pats, ws, true) <==> w in ws && MatchesAny(pats, w)
    ensures forall w :: w in Kept(pats, ws, false) <==> w in ws && !MatchesAny(pats, w)
  {
    if ws != [] {
      FilterPartitions(pats, ws[1..]);
      assert ws == [ws[0]] + ws[1..];
    }
  }

  /** A word is kept by filter exactly if it is one of the words and some pattern gives it: with a stem for the
      percent sign, or just as it stands; and by filter-out if none does. */
  lemma {:induction false} KeptExactly(pats: seq<Pattern>, ws: seq<string>, w: string)
    requires forall p :: p in pats ==> WellFormed(p)
    ensures w in Kept(pats, ws, true) <==> w in ws && exists p :: p in pats && Gives(p, w)
    ensures w in Kept(pats, ws, false) <==> w in ws && !exists p :: p in pats && Gives(p, w)
  {
    FilterPartitions(pats, ws);
    hide Kept;
    forall p | p in pats
      ensures Matches(p, w) <==> Gives(p, w)
    {
    }
  }

  ghost predicate Gives(p: Pattern, w: string) {
    match p.percent
    case Some(i) => i < |p.str| && exists stem :: w == p.str[..i] + stem + p.str[i + 1..]
    case None => w == p.str && |p.str| == p.length
  }

  /** The output splits back into the kept words, so filtering it again changes nothing. */
  lemma {:induction false} FilterAgain(pats: seq<Pattern>, text: string, isFilter: bool)
    requires forall p :: p in pats ==> WellFormed(p)
    ensures var once := Kept(pats, Words(text, 0), isFilter);
            Words(Join(once), 0) == once && Kept(pats, Words(Join(once), 0), isFilter) == once
  {
    var ws := Words(text, 0);
    FilterPartitions(pats, ws);
    var once := Kept(pats, ws, isFilter);
    forall k | 0 <= k < |once|
      ensures IsWord(once[k])
    {
      assert once[k] in ws;
    }
    WordsOfJoin(once);
    KeptAll(pats, once, isFilter);
  }

  lemma {:induction false} KeptAll(pats: seq<Pattern>, ws: seq<string>, isFilter: bool)
    requires forall p :: p in pats ==> WellFormed(p)
    requires forall w :: w in ws ==> MatchesAny(pats, w) == isFilter
    ensures Kept(pats, ws, isFilter) == ws
  {
    if ws != [] {
      KeptAll(pats, ws[1..], isFilter);
    }
  }
}
