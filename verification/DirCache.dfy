/** The directory cache: directories are read as far as a question needs, and few are open at once.
    Each hash table of the cache is the finite map it stands for. */
module DirCache {
  import opened Wrappers
  import opened FileNames

  /** Device and inode number. */
  type Id = (nat, nat)

  /** What does not change while the cache is used: which names are directories, which of them can
      be streams, and what is in them. */
  datatype World = World(stat: string -> Option<Id>, canOpen: Id -> bool, listing: Id -> seq<string>)

  const MAX_OPEN_DIRECTORIES: nat := 10

  /** Directories with the same device and inode share their contents, others stand for themselves. */
  datatype Key = ById(id: Id) | ByName(name: string)

  function KeyOf(w: World, dirname: string): Key {
    match w.stat(dirname) case Some(id) => ById(id) case None => ByName(dirname)
  }

  /** The directory has a stream. */
  predicate Openable(w: World, k: Key) {
    k.ById? && w.canOpen(k.id)
  }

  /** What can be read of a directory. */
  function Entries(w: World, k: Key): seq<string> {
    if Openable(w, k) then w.listing(k.id) else []
  }

  /** A name of a directory, marked as impossible. */
  type Mark = (Key, string)

  ghost predicate AnyMark(marks: set<Mark>, k: Key) {
    exists n :: (k, n) in marks
  }

  /** What is cached of one directory is right, and shows the marks it has. */
  ghost predicate StateOk(w: World, k: Key, marks: set<Mark>, files: Option<map<string, bool>>, stream: Option<seq<string>>) {
    Cached(Entries(w, k), files, stream) && MarksOf(k, marks, files) &&
    (files.Some? <==> Openable(w, k) || AnyMark(marks, k)) && (stream.Some? ==> Openable(w, k))
  }

  ghost predicate MarksOf(k: Key, marks: set<Mark>, files: Option<map<string, bool>>) {
    forall n :: IsMarked(files, n) <==> (k, n) in marks
  }

  /** What the cache can say of a name without reading. */
  lemma {:induction false} WhatIsCached(w: World, k: Key, marks: set<Mark>, files: Option<map<string, bool>>, stream: Option<seq<string>>, n: string)
    requires StateOk(w, k, marks, files, stream)
    ensures files.Some? && n in files.value ==> (n in Entries(w, k) && (k, n) !in marks <==> !files.value[n])
    ensures stream.None? && !IsKnown(files, n) ==> n !in Entries(w, k) || (k, n) in marks
    ensures files.None? ==> stream.None? && Entries(w, k) == []
    ensures files.Some? <==> Openable(w, k) || AnyMark(marks, k)
    ensures files.Some? && n !in files.value ==> (k, n) !in marks
  {
  }

  class Contents {
    var files: Option<map<string, bool>>   // the names known so far; true for an impossible one
    var stream: Option<seq<string>>        // what is still to be read, while the directory is open

    constructor (files: Option<map<string, bool>>, stream: Option<seq<string>>)
      ensures this.files == files && this.stream == stream
    {
      this.files, this.stream := files, stream;
    }
  }

  predicate IsMarked(files: Option<map<string, bool>>, n: string) {
    files.Some? && n in files.value && files.value[n]
  }

  predicate IsKnown(files: Option<map<string, bool>>, n: string) {
    files.Some? && n in files.value && !files.value[n]
  }

  /** Known names are in the directory, and a name of it that is neither known nor marked is still
      to be read. */
  ghost predicate Cached(entries: seq<string>, files: Option<map<string, bool>>, stream: Option<seq<string>>) {
    (forall n :: IsKnown(files, n) ==> n in entries) &&
    (forall n :: n in entries ==> IsKnown(files, n) || IsMarked(files, n) || (stream.Some? && n in stream.value)) &&
    (stream.Some? ==> files.Some? && forall n :: n in stream.value ==> n in entries)
  }

  /** The contents whose streams are open. */
  ghost function OpenOf(all: set<Contents>): set<Contents>
    reads all
  {
    set c | c in all && c.stream.Some?
  }

  ghost predicate HasContents(w: World, directories: map<string, Contents?>, contents: map<Id, Contents>, k: Key) {
    match k
    case ById(id) => id in contents
    case ByName(d) => d in directories && directories[d] != null
  }

  /** The tables lead to the contents of the right directories. */
  ghost predicate Indexed(w: World, directories: map<string, Contents?>, contents: map<Id, Contents>, keys: map<Contents, Key>) {
    (forall id :: id in contents ==> contents[id] in keys && keys[contents[id]] == ById(id)) &&
    (forall d :: d in directories && directories[d] != null ==> directories[d] in keys && keys[directories[d]] == KeyOf(w, d)) &&
    (forall d :: d in directories && w.stat(d).Some? ==> directories[d] != null) &&
    (forall c :: c in keys ==> match keys[c]
                               case ById(id) => id in contents && contents[id] == c
                               case ByName(d) => d in directories && directories[d] == c)
  }

  /** Contents of a directory not seen before. */
  lemma {:induction false} IndexedNew(w: World, directories: map<string, Contents?>, contents: map<Id, Contents>, keys: map<Contents, Key>, marks: set<Mark>, id: Id, dc: Contents)
    requires Indexed(w, directories, contents, keys) && dc !in keys && id !in contents
    requires forall m :: m in marks ==> HasContents(w, directories, contents, m.0)
    ensures Indexed(w, directories, contents[id := dc], keys[dc := ById(id)])
    ensures forall m :: m in marks ==> HasContents(w, directories, contents[id := dc], m.0) && m.0 != ById(id)
  {
  }

  lemma {:induction false} NewState(w: World, id: Id, marks: set<Mark>)
    requires forall m :: m in marks ==> m.0 != ById(id)
    ensures w.canOpen(id) ==> StateOk(w, ById(id), marks, Some(map[]), Some(w.listing(id)))
    ensures !w.canOpen(id) ==> StateOk(w, ById(id), marks, None, None)
  {
    NoMarks(marks, ById(id));
  }

  lemma {:induction false} NoMarks(marks: set<Mark>, k: Key)
    requires forall m :: m in marks ==> m.0 != k
    ensures forall n :: (k, n) !in marks
  {
    forall n: string
      ensures (k, n) !in marks
    {
      assert (k, n).0 == k;
    }
  }

  /** One more name for a directory, or a name that is none. */
  lemma {:induction false} IndexedName(w: World, directories: map<string, Contents?>, contents: map<Id, Contents>, keys: map<Contents, Key>, marks: set<Mark>, name: string, dir: Contents?)
    requires Indexed(w, directories, contents, keys) && name !in directories
    requires match w.stat(name) case Some(id) => id in contents && dir == contents[id] case None => dir == null
    requires forall m :: m in marks ==> HasContents(w, directories, contents, m.0)
    ensures Indexed(w, directories[name := dir], contents, keys)
    ensures forall m :: m in marks ==> HasContents(w, directories[name := dir], contents, m.0)
    ensures dir == null ==> forall m :: m in marks ==> m.0 != KeyOf(w, name)
  {
  }

  /** What the tables say of a directory. */
  lemma {:induction false} IndexedAt(w: World, directories: map<string, Contents?>, contents: map<Id, Contents>, keys: map<Contents, Key>, name: string)
    requires Indexed(w, directories, contents, keys)
    ensures name in directories && directories[name] != null ==> directories[name] in keys && keys[directories[name]] == KeyOf(w, name)
    ensures name in directories && directories[name] == null ==> w.stat(name).None? && !HasContents(w, directories, contents, KeyOf(w, name))
    ensures forall id :: id in contents ==> contents[id] in keys && keys[contents[id]] == ById(id)
  {
  }

  /** Contents for a name that is no directory. */
  lemma {:induction false} IndexedNameContents(w: World, directories: map<string, Contents?>, contents: map<Id, Contents>, keys: map<Contents, Key>, marks: set<Mark>, dirname: string, dc: Contents)
    requires Indexed(w, directories, contents, keys) && dc !in keys && w.stat(dirname).None?
    requires dirname in directories && directories[dirname] == null
    requires forall m :: m in marks ==> HasContents(w, directories, contents, m.0) && m.0 != KeyOf(w, dirname)
    ensures Indexed(w, directories[dirname := dc], contents, keys[dc := ByName(dirname)])
    ensures forall m :: m in marks ==> HasContents(w, directories[dirname := dc], contents, m.0)
    ensures StateOk(w, ByName(dirname), marks, None, None)
  {
    NoMarks(marks, ByName(dirname));
  }

  lemma {:induction false} KeyHasContents(w: World, directories: map<string, Contents?>, contents: map<Id, Contents>, keys: map<Contents, Key>, c: Contents)
    requires Indexed(w, directories, contents, keys) && c in keys
    ensures HasContents(w, directories, contents, keys[c])
  {
  }

  lemma {:induction false} DifferentKeys(w: World, directories: map<string, Contents?>, contents: map<Id, Contents>, keys: map<Contents, Key>, c: Contents, d: Contents)
    requires Indexed(w, directories, contents, keys) && c in keys && d in keys && c != d
    ensures keys[c] != keys[d]
  {
  }

  lemma {:induction false} NoEntries(w: World, dirname: string)
    ensures w.stat(dirname).None? ==> !Openable(w, KeyOf(w, dirname)) && Entries(w, KeyOf(w, dirname)) == []
  {
  }

  lemma {:induction false} MarkedIs(w: World, k: Key, marks: set<Mark>, files: Option<map<string, bool>>, stream: Option<seq<string>>, n: string)
    requires StateOk(w, k, marks, files, stream)
    ensures IsMarked(files, n) <==> (k, n) in marks
    ensures stream.Some? ==> files.Some?
  {
  }

  /** A directory with one name more that is impossible. */
  lemma {:induction false} MarkedState(w: World, k: Key, marks: set<Mark>, files: Option<map<string, bool>>, stream: Option<seq<string>>, n: string)
    requires StateOk(w, k, marks, files, stream)
    ensures StateOk(w, k, marks + {(k, n)}, Some((if files.Some? then files.value else map[])[n := true]), stream)
  {
    assert (k, n) in marks + {(k, n)};
  }

  /** The marks of other directories are nothing to this one. */
  lemma {:induction false} OtherMarks(w: World, k: Key, marks: set<Mark>, files: Option<map<string, bool>>, stream: Option<seq<string>>, marks': set<Mark>)
    requires StateOk(w, k, marks, files, stream) && forall n :: (k, n) in marks <==> (k, n) in marks'
    ensures StateOk(w, k, marks', files, stream)
  {
    hide Cached;
  }

  // ----- names

  /** The directory of a name: before the last slash; "." without one, "/" before the first. */
  function DirPart(name: string): string {
    var i := AfterSlash(name);
    if i == 0 then "." else if i == 1 then "/" else name[..i - 1]
  }

  function FilePart(name: string): string {
    name[AfterSlash(name)..]
  }

  method SplitAtSlash(name: string) returns (dirname: string, filename: string)
    ensures dirname == DirPart(name) && filename == FilePart(name)
  {
    var i := |name|;
    while i > 0 && name[i - 1] != '/'
      invariant 0 <= i <= |name| && '/' !in name[i..]
    {
      assert name[i - 1..] == [name[i - 1]] + name[i..];
      i := i - 1;
    }
    SlashIs(name, i);
    dirname := if i == 0 then "." else if i == 1 then "/" else name[..i - 1];
    filename := name[i..];
  }

  lemma {:induction false} SlashIs(name: string, i: nat)
    requires i <= |name| && '/' !in name[i..] && (i > 0 ==> name[i - 1] == '/')
    ensures AfterSlash(name) == i
  {
    var j := AfterSlash(name);
    assert forall k :: i <= k < |name| ==> name[i..][k - i] == name[k];
    assert forall k :: j <= k < |name| ==> name[j..][k - j] == name[k];
    assert j > 0 ==> name[j - 1] == '/';
  }

  /** The name in its directory. */
  function MarkOf(w: World, name: string): Mark {
    (KeyOf(w, DirPart(name)), FilePart(name))
  }

  /** The file system has the file. */
  predicate InListing(w: World, name: string) {
    FilePart(name) in Entries(w, KeyOf(w, DirPart(name)))
  }

  /** What the cache says while these names are marked: a marked name is taken for missing.  The empty
      name asks for the directory, which counts as there, too, once a name in it was marked. */
  ghost predicate IsThere(w: World, marks: set<Mark>, k: Key, filename: string) {
    if filename == "" then Openable(w, k) || AnyMark(marks, k)
    else filename in Entries(w, k) && (k, filename) !in marks
  }

  /** A name is the text before its last slash, the slash, and the text behind it.  Without a slash it
      is a name in ".", and with nothing before the slash a name in "/". */
  lemma {:induction false} NameParts(name: string)
    ensures '/' !in FilePart(name)
    ensures if '/' !in name then DirPart(name) == "." && FilePart(name) == name
            else if name == "/" + FilePart(name) then DirPart(name) == "/"
            else name == DirPart(name) + "/" + FilePart(name)
  {
    var i := AfterSlash(name);
    if i > 0 {
      assert name == name[..i - 1] + "/" + name[i..];
    }
  }

  /** The directory can be read and has the file. */
  predicate HasFile(w: World, dirname: string, filename: string) {
    match w.stat(dirname)
    case Some(id) => w.canOpen(id) && filename in w.listing(id)
    case None => false
  }

  /** Where a name is looked for. */
  lemma {:induction false} LookedForIn(w: World, d: string, f: string)
    requires '/' !in f
    ensures InListing(w, f) <==> HasFile(w, ".", f)
    ensures InListing(w, "/" + f) <==> HasFile(w, "/", f)
    ensures d != "" ==> (InListing(w, d + "/" + f) <==> HasFile(w, d, f))
    ensures MarkOf(w, f) == (KeyOf(w, "."), f) && MarkOf(w, "/" + f) == (KeyOf(w, "/"), f)
    ensures d != "" ==> MarkOf(w, d + "/" + f) == (KeyOf(w, d), f)
  {
    BehindSlash("", f, 0);
    BehindSlash("/", f, 1);
    BehindSlash(d + "/", f, |d| + 1);
    assert "" + f == f;
    assert d == (d + "/" + f)[..|d|];
  }

  lemma {:induction false} BehindSlash(dir: string, f: string, i: nat)
    requires '/' !in f && i == |dir| && (i > 0 ==> dir[i - 1] == '/')
    ensures AfterSlash(dir + f) == i && FilePart(dir + f) == f
  {
    assert (dir + f)[i..] == f;
    SlashIs(dir + f, i);
  }

  /** Two names share their contents exactly if they are one name, or names of one directory. */
  lemma {:induction false} SharedExactly(w: World, d: string, e: string)
    ensures KeyOf(w, d) == KeyOf(w, e) <==> d == e || (w.stat(d).Some? && w.stat(d) == w.stat(e))
  {
  }

  // ----- reading on

  /** What is read until the name that is looked for, or to the end. */
  function Taken(stream: seq<string>, filename: Option<string>): seq<string> {
    if stream == [] then []
    else [stream[0]] + if filename == Some(stream[0]) then [] else Taken(stream[1..], filename)
  }

  /** What is left behind it. */
  function Left(stream: seq<string>, filename: Option<string>): seq<string> {
    if stream == [] then []
    else if filename == Some(stream[0]) then stream[1..] else Left(stream[1..], filename)
  }

  /** Entering names makes them known, whether they were marked or not. */
  function Enter(files: map<string, bool>, names: seq<string>): map<string, bool>
    decreases |names|
  {
    if names == [] then files else Enter(files[names[0] := false], names[1..])
  }

  lemma {:induction false} Entered(files: map<string, bool>, names: seq<string>, n: string)
    ensures IsKnown(Some(Enter(files, names)), n) <==> IsKnown(Some(files), n) || n in names
    ensures IsMarked(Some(Enter(files, names)), n) <==> IsMarked(Some(files), n) && n !in names
    decreases |names|
  {
    if names != [] {
      Entered(files[names[0] := false], names[1..], n);
      assert n in names <==> n == names[0] || n in names[1..];
    }
  }

  lemma {:induction false} TakenAndLeft(stream: seq<string>, filename: Option<string>)
    ensures Taken(stream, filename) + Left(stream, filename) == stream
    ensures filename.Some? && filename.value in Left(stream, filename) ==> filename.value in Taken(stream, filename)
    ensures filename.None? || filename.value !in stream ==> Left(stream, filename) == []
  {
    if stream != [] {
      var d, rest := stream[0], stream[1..];
      assert stream == [d] + rest;
      if filename != Some(d) {
        TakenAndLeft(rest, filename);
        Further(d, Taken(rest, filename), Left(rest, filename), filename);
      }
    }
  }

  lemma {:induction false} Further(d: string, taken: seq<string>, left: seq<string>, filename: Option<string>)
    ensures [d] + taken + left == [d] + (taken + left)
    ensures filename.Some? && filename.value in taken ==> filename.value in [d] + taken
    ensures filename.Some? && filename.value !in [d] + (taken + left) ==> filename.value !in taken + left
  {
  }

  /** A name is read on the way exactly when it stands somewhere with the wanted name nowhere
      before it. */
  lemma {:induction false} TakenExact(stream: seq<string>, filename: Option<string>, n: string)
    ensures n in Taken(stream, filename) <==>
            exists i :: 0 <= i < |stream| && stream[i] == n && forall j :: 0 <= j < i ==> filename != Some(stream[j])
  {
    if stream != [] {
      var more := stream[1..];
      TakenExact(more, filename, n);
      if filename != Some(stream[0]) {
        if n in Taken(more, filename) {
          var i :| 0 <= i < |more| && more[i] == n && forall j :: 0 <= j < i ==> filename != Some(more[j]);
          assert stream[i + 1] == n && forall j :: 0 < j < i + 1 ==> stream[j] == more[j - 1];
        }
        if i :| 0 < i < |stream| && stream[i] == n && forall j :: 0 <= j < i ==> filename != Some(stream[j]) {
          assert more[i - 1] == n && forall j :: 0 <= j < i - 1 ==> more[j] == stream[j + 1];
        }
      }
    }
  }

  /** A mark is lost by reading on exactly when the name is read before what is looked for is found;
      so marks of names that the directory does not have stay. */
  lemma {:induction false} MarkStays(files: map<string, bool>, stream: seq<string>, filename: Option<string>, n: string)
    requires IsMarked(Some(files), n)
    ensures IsMarked(Some(Enter(files, Taken(stream, filename))), n) <==>
            forall i :: 0 <= i < |stream| && stream[i] == n ==> exists j :: 0 <= j < i && filename == Some(stream[j])
  {
    Entered(files, Taken(stream, filename), n);
    TakenExact(stream, filename, n);
  }

  /** Reads on until the name is found or the directory is read in, which closes it. */
  method ReadOn(c: Contents, filename: Option<string>) returns (found: bool)
    requires c.files.Some? && c.stream.Some?
    modifies c
    ensures found == (filename.Some? && filename.value in old(c.stream.value))
    ensures c.files == Some(Enter(old(c.files.value), Taken(old(c.stream.value), filename)))
    ensures c.stream == if found then Some(Left(old(c.stream.value), filename)) else None
  {
    ghost var files, stream := c.files.value, c.stream.value;
    while c.stream.value != []
      invariant c.files.Some? && c.stream.Some?
      invariant filename.Some? ==> (filename.value in c.stream.value <==> filename.value in stream)
      invariant Enter(c.files.value, Taken(c.stream.value, filename)) == Enter(files, Taken(stream, filename))
      invariant Left(c.stream.value, filename) == Left(stream, filename)
      decreases |c.stream.value|
    {
      var d, rest := c.stream.value[0], c.stream.value[1..];
      assert c.stream.value == [d] + rest;
      EnterFirst(c.files.value, d, if filename == Some(d) then [] else Taken(rest, filename));
      c.stream := Some(rest);
      c.files := Some(c.files.value[d := false]);
      if filename == Some(d) {
        return true;
      }
    }
    c.stream := None;
    return false;
  }

  lemma {:induction false} EnterFirst(files: map<string, bool>, d: string, names: seq<string>)
    ensures Enter(files, [d] + names) == Enter(files[d := false], names)
    ensures Enter(files, []) == files
  {
    assert ([d] + names)[1..] == names;
  }

  /** The marks that are left when these names of a directory were read. */
  function MarksLeft(marks: set<Mark>, k: Key, names: seq<string>): set<Mark> {
    set m | m in marks && (m.0 != k || m.1 !in names)
  }

  /** Some names of the directory, if any, are no longer marked. */
  ghost predicate Fewer(w: World, k: Key, before: set<Mark>, after: set<Mark>) {
    after <= before && forall m :: m in before && m !in after ==> m.0 == k && m.1 in Entries(w, k)
  }

  /** What was read is known now. */
  lemma {:induction false} StillOk(w: World, k: Key, marks: set<Mark>, files: map<string, bool>, stream: seq<string>, filename: Option<string>)
    requires StateOk(w, k, marks, Some(files), Some(stream))
    requires filename.Some? ==> !IsKnown(Some(files), filename.value) && !IsMarked(Some(files), filename.value)
    ensures var names, found := Taken(stream, filename), filename.Some? && filename.value in stream;
            var marks' := MarksLeft(marks, k, names);
            StateOk(w, k, marks', Some(Enter(files, names)), if found then Some(Left(stream, filename)) else None) &&
            Fewer(w, k, marks, marks')
    ensures filename.Some? ==> (filename.value in stream <==> filename.value in Entries(w, k)) && (k, filename.value) !in marks
    ensures Openable(w, k)
  {
    hide Openable, AnyMark, Entries, KeyOf, IsKnown, IsMarked, Enter, Taken, Left;
    var names, left := Taken(stream, filename), Left(stream, filename);
    TakenAndLeft(stream, filename);
    assert forall n :: n in stream <==> n in names || n in left;
    forall n: string
      ensures IsKnown(Some(Enter(files, names)), n) <==> IsKnown(Some(files), n) || n in names
      ensures IsMarked(Some(Enter(files, names)), n) <==> IsMarked(Some(files), n) && n !in names
    {
      Entered(files, names, n);
    }
  }

  class Cache {
    const w: World
    var directories: map<string, Contents?>
    var contents: map<Id, Contents>
    var openDirectories: nat
    ghost var keys: map<Contents, Key>          // every contents object, and whose it is
    ghost var marks: set<Mark>                  // the names marked impossible

    constructor (w: World)
      ensures Valid() && this.w == w && marks == {} && keys == map[]
    {
      this.w := w;
      directories, contents, openDirectories := map[], map[], 0;
      keys, marks := map[], {};
      new;
      assert OpenOf(keys.Keys) == {};
    }

    ghost predicate Valid()
      reads this, keys.Keys
    {
      Consistent() && openDirectories < MAX_OPEN_DIRECTORIES
    }

    ghost predicate Consistent()
      reads this, keys.Keys
    {
      Indexed(w, directories, contents, keys) &&
      (forall c :: c in keys ==> StateOk(w, keys[c], marks, c.files, c.stream)) &&
      (forall m :: m in marks ==> HasContents(w, directories, contents, m.0)) &&
      openDirectories == |OpenOf(keys.Keys)|
    }

    /** Whether a name is in a directory: a known name is answered for at once, for others the
        directory is read further. */
    method ContentsFileExists(c: Contents?, filename: Option<string>) returns (found: bool)
      requires Consistent() && (c != null ==> c in keys)
      modifies this`openDirectories, this`marks, c
      ensures Consistent() && openDirectories <= old(openDirectories)
      ensures if c == null then marks == old(marks) else Fewer(w, keys[c], old(marks), marks)
      ensures filename.Some? && filename.value != "" ==>
                found == (c != null && filename.value in Entries(w, keys[c]) && (keys[c], filename.value) !in old(marks))
      ensures filename == Some("") ==> found == (c != null && (Openable(w, keys[c]) || AnyMark(old(marks), keys[c])))
      ensures filename.None? && c != null && old(c.stream).Some? ==> openDirectories + 1 == old(openDirectories)
    {
      hide Indexed, HasContents, StateOk, Entries;
      if c == null {
        return false;
      }
      assert StateOk(w, keys[c], marks, c.files, c.stream);
      WhatIsCached(w, keys[c], marks, c.files, c.stream, if filename.Some? then filename.value else "");
      if c.files.None? {
        return false;
      }
      if filename.Some? {
        if filename.value == "" {
          return true;
        }
        if filename.value in c.files.value {
          return !c.files.value[filename.value];
        }
      }
      if c.stream.None? {
        return false;
      }
      ghost var streams := OpenOf(keys.Keys);
      assert c in streams;
      found := ReadFurther(c, filename);
      if !found {
        assert OpenOf(keys.Keys) == streams - {c};
        openDirectories := openDirectories - 1;
      } else {
        assert OpenOf(keys.Keys) == streams;
      }
    }

    /** The entry for a directory; its contents are shared with other names for it. */
    method FindDirectory(name: string) returns (dir: Contents?)
      requires Valid()
      modifies this, keys.Keys
      ensures Valid() && marks == old(marks) && Extends() && fresh(keys.Keys - old(keys.Keys))
      ensures name in directories && dir == directories[name] && (dir != null ==> dir in keys && keys[dir] == KeyOf(w, name))
      ensures dir == null ==> w.stat(name).None? && forall m :: m in marks ==> m.0 != KeyOf(w, name)
    {
      hide Indexed, HasContents, StateOk;
      IndexedAt(w, directories, contents, keys, name);
      if name in directories {
        return directories[name];
      }
      dir := null;
      match w.stat(name) {
        case None =>
        case Some(id) =>
          if id !in contents {
            NewContents(name, id);
          }
          IndexedAt(w, directories, contents, keys, name);
          dir := contents[id];
      }
      IndexedName(w, directories, contents, keys, marks, name, dir);
      directories := directories[name := dir];
    }

    twostate predicate Extends()
      reads this
    {
      forall c :: c in old(keys) ==> c in keys && keys[c] == old(keys)[c]
    }

    /** A directory that was not seen before is opened; the tenth open one is read in at once. */
    method NewContents(name: string, id: Id)
      requires Valid() && id !in contents && w.stat(name) == Some(id) && name !in directories
      modifies this, keys.Keys
      ensures Valid() && marks == old(marks) && directories == old(directories) && id in contents && Extends()
      ensures fresh(keys.Keys - old(keys.Keys))
    {
      hide Indexed, HasContents, StateOk;
      assert forall m :: m in marks ==> m.0 != ById(id) by { NoneOf(id); }
      var dc := Register(id);
      if dc.stream.Some? {
        if openDirectories == MAX_OPEN_DIRECTORIES {
          var all := ContentsFileExists(dc, None);
        }
      }
    }

    /** Enters the contents of a directory, with its stream if it can be opened. */
    method Register(id: Id) returns (dc: Contents)
      requires Valid() && id !in contents
      modifies this
      ensures Consistent() && openDirectories == old(openDirectories) + (if dc.stream.Some? then 1 else 0)
      ensures fresh(dc) && contents == old(contents)[id := dc] && keys == old(keys)[dc := ById(id)]
      ensures marks == old(marks) && directories == old(directories)
    {
      hide Indexed, HasContents, StateOk, OpenOf;
      var opens := w.canOpen(id);
      dc := new Contents(if opens then Some(map[]) else None, if opens then Some(w.listing(id)) else None);
      Registered(id, dc);
      contents := contents[id := dc];
      keys := keys[dc := ById(id)];
      if opens {
        openDirectories := openDirectories + 1;
      }
    }

    /** What holds of the tables with a directory more. */
    lemma {:induction false} Registered(id: Id, dc: Contents)
      requires Consistent() && id !in contents && dc !in keys
      requires if w.canOpen(id) then dc.files == Some(map[]) && dc.stream == Some(w.listing(id)) else dc.files.None? && dc.stream.None?
      ensures var keys' := keys[dc := ById(id)];
              Indexed(w, directories, contents[id := dc], keys') &&
              (forall c :: c in keys' ==> StateOk(w, keys'[c], marks, c.files, c.stream)) &&
              |OpenOf(keys'.Keys)| == openDirectories + (if dc.stream.Some? then 1 else 0)
      ensures forall m :: m in marks ==> HasContents(w, directories, contents[id := dc], m.0)
    {
      hide Indexed, HasContents, StateOk;
      IndexedNew(w, directories, contents, keys, marks, id, dc);
      NewState(w, id, marks);
      NewStream(keys.Keys, dc);
      assert keys[dc := ById(id)].Keys == keys.Keys + {dc};
      hide OpenOf;
    }

    /** A directory more, and a stream more if it could be opened. */
    lemma {:induction false} NewStream(all: set<Contents>, dc: Contents)
      requires dc !in all
      ensures OpenOf(all + {dc}) == OpenOf(all) + (if dc.stream.Some? then {dc} else {}) && dc !in OpenOf(all)
    {
    }

    /** Reading further may take marks from names of this directory, and changes no other directory. */
    method ReadFurther(c: Contents, filename: Option<string>) returns (found: bool)
      requires Consistent() && c in keys && c.stream.Some?
      requires filename.Some? && c.files.Some? ==> filename.value !in c.files.value
      modifies this`marks, c
      ensures forall d :: d in keys ==> StateOk(w, keys[d], marks, d.files, d.stream)
      ensures Fewer(w, keys[c], old(marks), marks)
      ensures (c.stream.Some? <==> found) && found == (filename.Some? && filename.value in Entries(w, keys[c]))
      ensures filename.Some? ==> (keys[c], filename.value) !in old(marks)
    {
      hide Indexed, HasContents, StateOk, Entries, Enter, Taken, Left, Fewer;
      assert StateOk(w, keys[c], marks, c.files, c.stream);
      MarkedIs(w, keys[c], marks, c.files, c.stream, "");
      ghost var taken := Taken(c.stream.value, filename);
      StillOk(w, keys[c], marks, c.files.value, c.stream.value, filename);
      found := ReadOn(c, filename);
      OtherStates(marks, c, MarksLeft(marks, keys[c], taken));
      marks := MarksLeft(marks, keys[c], taken);
    }

    /** Whether a file is in a directory: a marked one is taken for missing, and the directory itself is
        asked for by the empty name. */
    method DirFileExists(dirname: string, filename: string) returns (found: bool)
      requires Valid()
      modifies this, keys.Keys
      ensures Valid() && Fewer(w, KeyOf(w, dirname), old(marks), marks) && fresh(keys.Keys - old(keys.Keys))
      ensures found == IsThere(w, old(marks), KeyOf(w, dirname), filename)
    {
      hide Indexed, HasContents, StateOk, Entries, Openable;
      var dir := FindDirectory(dirname);
      found := ContentsFileExists(dir, Some(filename));
      NoEntries(w, dirname);
    }

    method FileExists(name: string) returns (found: bool)
      requires Valid()
      modifies this, keys.Keys
      ensures Valid() && Fewer(w, MarkOf(w, name).0, old(marks), marks) && fresh(keys.Keys - old(keys.Keys))
      ensures found == IsThere(w, old(marks), MarkOf(w, name).0, FilePart(name))
    {
      var dirname, filename := SplitAtSlash(name);
      found := DirFileExists(dirname, filename);
    }

    /** Marks a name as impossible; a search for it has failed. */
    method FileImpossible(name: string)
      requires Valid()
      modifies this, keys.Keys
      ensures Valid() && fresh(keys.Keys - old(keys.Keys))
      ensures marks == old(marks) + {MarkOf(w, name)}
    {
      hide Indexed, HasContents, StateOk, Entries;
      var dirname, filename := SplitAtSlash(name);
      var dir := FindDirectory(dirname);
      if dir == null {
        dir := NameContents(dirname);
      }
      SetMark(dir, filename);
    }

    method FileImpossibleP(name: string) returns (marked: bool)
      requires Valid()
      modifies this, keys.Keys
      ensures Valid() && marks == old(marks) && fresh(keys.Keys - old(keys.Keys))
      ensures marked == (MarkOf(w, name) in marks)
    {
      hide Indexed, HasContents, StateOk, Entries;
      var dirname, filename := SplitAtSlash(name);
      var dir := FindDirectory(dirname);
      if dir == null {
        return false;
      }
      assert StateOk(w, keys[dir], marks, dir.files, dir.stream);
      MarkedIs(w, keys[dir], marks, dir.files, dir.stream, filename);
      if dir.files.None? {
        return false;
      }
      marked := filename in dir.files.value && dir.files.value[filename];
    }

    /** Contents for a name that is no directory; they are left out of the table of contents. */
    method NameContents(dirname: string) returns (dc: Contents)
      requires Valid() && dirname in directories && directories[dirname] == null && w.stat(dirname).None?
      requires forall m :: m in marks ==> m.0 != KeyOf(w, dirname)
      modifies this
      ensures Valid() && marks == old(marks) && dc in keys && keys[dc] == KeyOf(w, dirname)
      ensures fresh(dc) && keys == old(keys)[dc := ByName(dirname)]
    {
      hide Indexed, HasContents, StateOk;
      ghost var streams := OpenOf(keys.Keys);
      dc := new Contents(None, None);
      IndexedNameContents(w, directories, contents, keys, marks, dirname, dc);
      directories := directories[dirname := dc];
      keys := keys[dc := ByName(dirname)];
      assert OpenOf(keys.Keys) == streams;
    }

    /** Marks of this directory are nothing to the others. */
    lemma {:induction false} OtherStates(marks: set<Mark>, dir: Contents, marks': set<Mark>)
      requires dir in keys && forall c :: c in keys && c != dir ==> StateOk(w, keys[c], marks, c.files, c.stream)
      requires Indexed(w, directories, contents, keys)
      requires forall m: Mark :: m.0 != keys[dir] ==> (m in marks <==> m in marks')
      ensures forall c :: c in keys && c != dir ==> StateOk(w, keys[c], marks', c.files, c.stream)
    {
      hide StateOk;
      forall c | c in keys && c != dir
        ensures StateOk(w, keys[c], marks', c.files, c.stream)
      {
        DifferentKeys(w, directories, contents, keys, c, dir);
        assert forall n: string :: (keys[c], n).0 == keys[c];
        OtherMarks(w, keys[c], marks, c.files, c.stream, marks');
      }
    }

    /** A directory that was not seen before has no marks. */
    lemma {:induction false} NoneOf(id: Id)
      requires id !in contents && forall m :: m in marks ==> HasContents(w, directories, contents, m.0)
      ensures forall m :: m in marks ==> m.0 != ById(id)
    {
    }

    /** Enters a name as impossible. */
    method SetMark(dir: Contents, filename: string)
      requires Valid() && dir in keys
      modifies this`marks, dir
      ensures Valid() && marks == old(marks) + {(keys[dir], filename)}
    {
      hide Indexed, StateOk, Entries;
      ghost var streams := OpenOf(keys.Keys);
      KeyHasContents(w, directories, contents, keys, dir);
      assert StateOk(w, keys[dir], marks, dir.files, dir.stream);
      if dir.files.None? {
        dir.files := Some(map[]);
        MarkedState(w, keys[dir], marks, None, dir.stream, filename);
      } else {
        MarkedState(w, keys[dir], marks, dir.files, dir.stream, filename);
      }
      dir.files := Some(dir.files.value[filename := true]);
      OtherStates(marks, dir, marks + {(keys[dir], filename)});
      marks := marks + {(keys[dir], filename)};
      assert OpenOf(keys.Keys) == streams;
    }
  }

  // ----- whole runs

  datatype Query = Exists(name: string) | MarkImpossible(name: string) | IsImpossible(name: string)

  /** The names that questions marked, whether or not the marks were lost again. */
  function Marked(w: World, qs: seq<Query>): set<Mark> {
    if qs == [] then {} else MarkedBy(w, Marked(w, qs[..|qs| - 1]), qs[|qs| - 1])
  }

  function MarkedBy(w: World, marked: set<Mark>, q: Query): set<Mark> {
    if q.MarkImpossible? then marked + {MarkOf(w, q.name)} else marked
  }

  /** The answer a cache has to give after these names were marked.  A name that the file system has
      can lose its mark; until then it is impossible and taken for missing. */
  ghost predicate RightAnswer(w: World, marked: set<Mark>, q: Query, answer: Option<bool>) {
    match q
    case MarkImpossible(_) => answer == None
    case Exists(name) =>
      answer.Some? &&
      if FilePart(name) == "" then answer.value == (Openable(w, MarkOf(w, name).0) || AnyMark(marked, MarkOf(w, name).0))
      else if MarkOf(w, name) in marked then answer.value ==> InListing(w, name)
      else answer.value == InListing(w, name)
    case IsImpossible(name) =>
      answer.Some? &&
      if InListing(w, name) then answer.value ==> MarkOf(w, name) in marked
      else answer.value == (MarkOf(w, name) in marked)
  }

  /** Marks are lost only of names that the file system has. */
  ghost predicate Faded(w: World, marked: set<Mark>, marks: set<Mark>) {
    marks <= marked && forall m :: m in marked && m !in marks ==> m.1 in Entries(w, m.0)
  }

  /** What the marks that are left say of the question. */
  lemma {:induction false} ExistsRight(w: World, marked: set<Mark>, marks: set<Mark>, name: string, after: set<Mark>)
    requires Faded(w, marked, marks) && Fewer(w, MarkOf(w, name).0, marks, after)
    ensures RightAnswer(w, marked, Query.Exists(name), Some(IsThere(w, marks, MarkOf(w, name).0, FilePart(name))))
    ensures Faded(w, MarkedBy(w, marked, Query.Exists(name)), after)
  {
    hide DirPart, FilePart, KeyOf;
    var k := MarkOf(w, name).0;
    if !Openable(w, k) {
      assert forall n :: (k, n) in marked && (k, n) !in marks ==> (k, n).1 in Entries(w, (k, n).0);
    }
  }

  lemma {:induction false} ImpossibleRight(w: World, marked: set<Mark>, marks: set<Mark>, name: string)
    requires Faded(w, marked, marks)
    ensures RightAnswer(w, marked, IsImpossible(name), Some(MarkOf(w, name) in marks))
    ensures Faded(w, MarkedBy(w, marked, IsImpossible(name)), marks)
  {
    hide DirPart, FilePart, KeyOf;
  }

  lemma {:induction false} MarkRight(w: World, marked: set<Mark>, marks: set<Mark>, name: string)
    requires Faded(w, marked, marks)
    ensures RightAnswer(w, marked, MarkImpossible(name), None)
    ensures Faded(w, MarkedBy(w, marked, MarkImpossible(name)), marks + {MarkOf(w, name)})
  {
    hide DirPart, FilePart, KeyOf;
  }

  lemma {:induction false} MarkedNext(w: World, qs: seq<Query>, i: nat)
    requires i < |qs|
    ensures Marked(w, qs[..i + 1]) == MarkedBy(w, Marked(w, qs[..i]), qs[i])
  {
    hide MarkedBy;
    assert qs[..i + 1][..i] == qs[..i];
  }

  /** One question to a cache. */
  method Ask(cache: Cache, q: Query, ghost marked: set<Mark>) returns (answer: Option<bool>)
    requires cache.Valid() && Faded(cache.w, marked, cache.marks)
    modifies cache, cache.keys.Keys
    ensures cache.Valid() && fresh(cache.keys.Keys - old(cache.keys.Keys))
    ensures Faded(cache.w, MarkedBy(cache.w, marked, q), cache.marks)
    ensures RightAnswer(cache.w, marked, q, answer)
  {
    hide *;
    ghost var marks := cache.marks;
    match q {
      case Exists(name) =>
        var found := cache.FileExists(name);
        ExistsRight(cache.w, marked, marks, name, cache.marks);
        answer := Some(found);
      case MarkImpossible(name) =>
        cache.FileImpossible(name);
        MarkRight(cache.w, marked, marks, name);
        answer := None;
      case IsImpossible(name) =>
        var impossible := cache.FileImpossibleP(name);
        ImpossibleRight(cache.w, marked, marks, name);
        answer := Some(impossible);
    }
  }

  /** From an empty cache on, every answer is what the file system and the marks say. */
  method Session(w: World, qs: seq<Query>) returns (answers: seq<Option<bool>>)
    ensures |answers| == |qs|
    ensures forall k :: 0 <= k < |qs| ==> RightAnswer(w, Marked(w, qs[..k]), qs[k], answers[k])
  {
    hide *;
    var cache := new Cache(w);
    answers := [];
    NothingFaded(w, qs);
    for i := 0 to |qs|
      invariant |answers| == i && fresh(cache) && fresh(cache.keys.Keys) && cache.Valid() && cache.w == w
      invariant Faded(w, Marked(w, qs[..i]), cache.marks)
      invariant Right(w, qs, answers)
    {
      MarkedNext(w, qs, i);
      var answer := Ask(cache, qs[i], Marked(w, qs[..i]));
      OneMoreRight(w, qs, answers, answer);
      answers := answers + [answer];
    }
    AllRight(w, qs, answers);
  }

  /** The answers so far are right. */
  ghost predicate Right(w: World, qs: seq<Query>, answers: seq<Option<bool>>) {
    |answers| <= |qs| && forall k :: 0 <= k < |answers| ==> RightAnswer(w, Marked(w, qs[..k]), qs[k], answers[k])
  }

  lemma {:induction false} OneMoreRight(w: World, qs: seq<Query>, answers: seq<Option<bool>>, answer: Option<bool>)
    requires Right(w, qs, answers) && |answers| < |qs|
    requires RightAnswer(w, Marked(w, qs[..|answers|]), qs[|answers|], answer)
    ensures Right(w, qs, answers + [answer])
  {
    hide RightAnswer, Marked;
  }

  lemma {:induction false} AllRight(w: World, qs: seq<Query>, answers: seq<Option<bool>>)
    requires Right(w, qs, answers)
    ensures forall k :: 0 <= k < |answers| ==> RightAnswer(w, Marked(w, qs[..k]), qs[k], answers[k])
  {
  }

  lemma {:induction false} NothingFaded(w: World, qs: seq<Query>)
    ensures Faded(w, Marked(w, qs[..0]), {}) && Right(w, qs, [])
  {
  }
}
