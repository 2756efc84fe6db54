/** File names with directories. */
module FileNames {

  /** Where the last part of a name begins: behind its last slash. */
  function AfterSlash(name: string): (i: nat)
    ensures i <= |name| && '/' !in name[i..] && (i > 0 ==> name[i - 1] == '/')
  {
    if name == "" || name[|name| - 1] == '/' then |name|
    else
      assert name == name[..|name| - 1] + [name[|name| - 1]];
      AfterSlash(name[..|name| - 1])
  }
}
