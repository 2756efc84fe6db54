# Verification of the patched make and the elf2e32 writers

A Dafny model of the hardest parts of two programs, with proofs: GNU make 3.81 as patched here
(`tools/make-3.81`), and the tools that write Symbian images (`tools/elf2e32`, `tools/genaif.c`).
`dafny verify dfyconfig.toml` checks the whole project.

What is modelled, file by file:

- **Hash tables** (`ProbeMath`, `RoundUp`, `Slots`, `HashTable`, `HashRuns`): open addressing with
  double hashing, tombstones and rehashing. A table stands for a finite map; keys are compared by
  the key function of the table, and the two hash functions are arbitrary functions of the key.
- **Word functions** (`Tokens`, `Filter`): the token scanners, and `$(filter)` and `$(filter-out)`
  with the hash table of words and the chains of equal words.
- **Jobserver and jobs** (`JobserverTree`, `Jobs`): the tree of make processes that share one pipe,
  and one process with its chains of children, its counters and the text of its commands. What the
  operating system decides (which child ends, with what status, whether the load is high, when a
  read is interrupted) is left to choice, so that the proofs hold for all of it.
- **getopt** (`ArgvBlocks`, `GetoptSpec`, `Getopt`, `GetoptRoundTrip`): the block exchange, one call of the
  scanner, a whole scan against a specification that knows the original vector only, and command lines
  written by the conventions and read back. The background is IEEE Std 1003.1, Base Definitions,
  section 12.2.
- **Implicit rules** (`PatternRules`, `Derivations`, `ImplicitSearch`): matching, the two passes, the
  recursion through intermediate files, and the table of files the search leaves behind.
- **Quoting** (`Quoting`, `ShellSyntax`, `ShellScan`, `ShellMeaning`, `ShellNeeds`, `ShellWords`,
  `ShellArgv`, `ShellPlain`, `OtherShell`): MAKEFLAGS words through quoting, expansion and splitting; command lines
  through the internal tokenizer or through the shell. `ShellSyntax` says what the words of a command
  are by the quoting rules of IEEE Std 1003.1, Shell Command Language, sections 2.2 and 2.3, without
  any reference to the tokenizer, and which characters and words only a shell can deal with;
  `ShellMeaning` and `ShellNeeds` compare the two.
- **CRC** (`Division`, `Crc`, `CrcLoops`, `UidChecksum`): CRC-CCITT bit by bit, bitwise and by table,
  and the UID checksums of two tools.
- **Image writers** (`Relocations`, `Exports`): the relocation section, and export ordinals with the
  symbol hash of chapter 5 of the System V ABI ("Dynamic Linking", section "Hash Table").
- **Text in place** (`Continuations`, `Abspath`): backslash-newlines collapsed in one buffer, and
  absolute names built in one buffer.
- **Directory cache** (`DirCache`): directories that are read as far as a question needs.

Where code and comments disagree the model follows the code:

- `job.c:2529-2540`: the comment promises to turn backslashes into forward slashes; the code keeps
  the backslash. It undoes escapes only in lines that begin with the name of the default shell. So
  `SHELL -c LINE` is split rightly for every shell whose name begins with that of the default one,
  `/bin/shx` as well as `/bin/sh`, and for other shells exactly if LINE has nothing to escape
  (`OtherShell.OtherShellExact`); and with the default shell, too, an ordinary line such as `c u\ v` is
  split at the escaped blank (`ShellPlain.EscapedBlank`). Which lines are split as the rules of the
  shell say is exactly known (`ShellMeaning.SplitExact`).
- `job.c:2488-2501`: a backslash-newline behind an empty word in quotes swallows the blanks behind it,
  so that `''` and the next word become one (`ShellPlain.EmptyWordLost`).
- `implicit.c:278-302`: the comment says that `foo/bar/` counts as `bar/` in directory `foo/`; the code
  gives such a name no directory at all.
- `main.c:2998-3013`: after status 2 every counted token is written, the free one included, so the
  pipe can gain a token (`JobserverTree.GiveBackExact`), and the master then reports wrong tokens,
  whether it ended so itself or one of the makes below it did (`JobserverTree.MasterCountsAtEnd`,
  `JobserverTree.GiveBackHappens`, `JobserverTree.SubGiveBackHappens`).
- `dir.c:671-726`: reading a directory further enters every name as there, so that a name marked
  impossible while the directory has it loses its mark when it is read (`DirCache.MarkStays`); and once
  a name in a missing directory is marked, the directory counts as there
  (`DirCache.Cache.FileExists`).
- `hash.c:136-155`: the load limit of a table with fewer than sixteen slots is zero, so such a table
  can fill up, and a lookup in a full table for a key that is not there does not end
  (`HashRuns.OneSlotTable`). Everything said of runs is for sixteen slots and more, or for fewer
  insertions than slots (`HashRuns.Run`).
- `job.c:2724-2772`: where newlines do not end the line, an escaped bare newline reads back as a
  continuation and is lost (`ShellArgv.BareNewlineLost`).

Every recursive proof is written out; no lemma relies on automatic induction.

## Model

| member | source | states |
|---|---|---|
| ProbeMath.ProbeNext | tools/make-3.81/hash.c:94-117 | adding an odd step and masking is the next probe of the same residue sequence |
| ProbeMath.OddStepVisits | tools/make-3.81/hash.c:30-35 | an odd step through a power-of-two table comes to every slot within one round |
| RoundUp.RoundUp2Exact | tools/make-3.81/hash.c:317-332 | the result is the least power of two above the request exactly for requests below 2^63; from there on the 64-bit additions wrap to 0 |
| RoundUp.RoundUpBelow31 | tools/make-3.81/hash.c:317-332 | requests below 2^31 give sizes that 32-bit probe positions can index |
| Slots.StoreKeeps | tools/make-3.81/hash.c:136-155 | storing an item in its key's slot binds that key and keeps every other item on its own probe path, no key twice |
| Slots.EraseKeeps | tools/make-3.81/hash.c:157-176 | a tombstone removes exactly one binding and breaks no probe path |
| Slots.LiveIsCardinality | tools/make-3.81/hash.c:136-155 | the number of live slots is the number of bindings |
| Slots.LookupEndsExactly | tools/make-3.81/hash.c:85-118 | a lookup ends if and only if there is an empty slot or the key is in the table |
| Slots.NullMeansAbsent | tools/make-3.81/hash.c:85-118 | an empty slot on the probe path means that the key is not in the table |
| HashTables.HashTable.constructor | tools/make-3.81/hash.c:43-64 | an empty table of a power-of-two size stands for the empty map, and its counters are right |
| HashTables.HashTable.FindSlot | tools/make-3.81/hash.c:85-118 | the slot of the key, or the first vacant slot of its path, whenever the lookup can end; never past the key |
| HashTables.HashTable.FindItem | tools/make-3.81/hash.c:120-125 | the item bound to the key in the map the table stands for |
| HashTables.HashTable.InsertAt | tools/make-3.81/hash.c:136-155 | binds the item, keeps counters true, and rehashes when fewer than a sixteenth of the slots are empty |
| HashTables.HashTable.Insert | tools/make-3.81/hash.c:127-134 | the map with the item bound; the answer is the item it displaces |
| HashTables.HashTable.Delete | tools/make-3.81/hash.c:157-176 | the map without the key; the answer is the item removed |
| HashTables.HashTable.Rehash | tools/make-3.81/hash.c:251-276 | every binding survives, tombstones do not, and at least a sixteenth of the slots is empty again |
| HashTables.HashTable.LookupsEnd | tools/make-3.81/hash.c:136-155 | from sixteen slots on the load limit makes every lookup end |
| HashTables.HashTable.FillCounts | tools/make-3.81/hash.c:136-155 | ht_fill is the number of bindings |
| HashRuns.AfterIsLastBinding | tools/make-3.81/hash.c:120-176 | the map after a run binds a key to the item last inserted under it, unless deleted since |
| HashRuns.Run | tools/make-3.81/hash.c:85-176 | any run of insertions, deletions and lookups from an empty table of sixteen slots or more, or of more slots than insertions, answers like a finite map, and insertions return what they displace |
| HashRuns.OneSlotTable | tools/make-3.81/hash.c:136-155 | a table below sixteen slots has no load limit: once full, a lookup for another key never ends |
| Tokens.NextToken | tools/make-3.81/misc.c:454-462 | the first position that holds no blank |
| Tokens.FindNextToken | tools/make-3.81/misc.c:464-480 | the bounds of the next token, or none at the end |
| Tokens.ChopWords | tools/make-3.81/misc.c:414-480 | token after token gives exactly the blank-separated words |
| Tokens.WordsOfJoin | tools/make-3.81/misc.c:465-480 | splitting joined words gives the same words |
| Tokens.WordsOfSpread | tools/make-3.81/misc.c:414-480 | words with any spaces and tabs between and around them are the words of the text |
| Filter.PatternMatches | tools/make-3.81/function.c:277-303 | holds exactly when the word is the text before the percent sign, any stem, and the text after it |
| Filter.HashWords | tools/make-3.81/function.c:984-995 | the table holds the last position of each word and the chains link all equal words, backwards |
| Filter.MarkChain | tools/make-3.81/function.c:1007-1018 | walking a chain marks exactly the occurrences of the word |
| Filter.RunPattern | tools/make-3.81/function.c:1001-1022 | marks exactly the words the pattern matches, with the table or without it |
| Filter.ChooseTable | tools/make-3.81/function.c:957-995 | the table is built exactly if there are two patterns without a percent sign and ten or more comparisons with them to make |
| Filter.FilterFilterOut | tools/make-3.81/function.c:919-1046 | the kept words, in order and with duplicates; the answer does not depend on whether the table is used |
| Filter.FilterPartitions | tools/make-3.81/function.c:1025-1032 | filter and filter-out of the same arguments share out the words, none lost and none in both |
| Filter.KeptExactly | tools/make-3.81/function.c:277-303 | filter keeps exactly the words that some pattern gives, with a stem for its percent sign or as it stands, and filter-out the others |
| Filter.FilterAgain | tools/make-3.81/function.c:1025-1032 | filtering the result again changes nothing |
| JobserverTree.StepConserves | tools/make-3.81/job.c:1640-1724 | no step of any process makes or loses a token, except the end of a make that still counts some: with status 2 it writes the free one too and makes one, otherwise those it took from the pipe are lost |
| JobserverTree.TokenKeepsTree | tools/make-3.81/job.c:843-868 | counting a token up or down keeps the processes a tree in which each sub-make occupies a job of its parent |
| JobserverTree.SpawnKeepsTree | tools/make-3.81/job.c:1640-1724 | a job that becomes a make keeps that tree |
| JobserverTree.ExitKeepsTree | tools/make-3.81/main.c:2988-3013 | a make that ends, whatever it still counts and whether or not it writes it back, keeps that tree |
| JobserverTree.Conservation | tools/make-3.81/job.c:1640-1724 | in every state of every interleaving, makes that end with jobs waiting included, pipe tokens and tokens held beyond the free ones sum to the slots less one and the surplus of the tokens made so far over those lost |
| JobserverTree.ParallelismExact | tools/make-3.81/job.c:1640-1724 | leaf jobs, tokens in the pipe and makes without a job always sum to the slots and the surplus, so at most that many leaf jobs are alive at once |
| JobserverTree.NoSurplus | tools/make-3.81/job.c:1640-1724 | there is no surplus as long as every make that ended had counted its jobs back |
| JobserverTree.SurplusBound | tools/make-3.81/main.c:2998-3013 | the surplus is at most the number of makes that ended with status 2 |
| JobserverTree.IdleRootIsAlone | tools/make-3.81/main.c:3016-3032 | a root without jobs has no process left below it |
| JobserverTree.MasterCountsAll | tools/make-3.81/main.c:3016-3032 | when the root has no jobs, its final count of the pipe is the slots and the surplus, after any run; right whenever every make that ended had counted its jobs back |
| JobserverTree.SetUpPipe | tools/make-3.81/main.c:1709-1733 | the pipe begins with one token for each slot but the first |
| JobserverTree.CountBack | tools/make-3.81/main.c:3016-3032 | the master's count reports wrong tokens exactly if the pipe does not hold the slots less one; at the end of a run, exactly if the surplus of the sub-makes and what its own end makes or loses do not cancel |
| JobserverTree.GiveBackExact | tools/make-3.81/main.c:2998-3013 | the give-back after status 2 keeps the number of tokens exactly if there is nothing to write; otherwise the free token is written too |
| JobserverTree.MasterCountsAtEnd | tools/make-3.81/main.c:2998-3032 | at the end of any run, the master counts the slots, the surplus of the sub-makes, and one more if it ends with status 2 while it still counts a token; without status 2, the tokens it still holds are missing |
| JobserverTree.GiveBackHappens | tools/make-3.81/main.c:2998-3032 | for every number of slots there is a run in which a job of the master waits after another has ended, and its count then comes out one too high |
| JobserverTree.SubGiveBackHappens | tools/make-3.81/main.c:2998-3032 | for every number of slots there is a run in which a sub-make ends so, and a master without jobs then counts one too many |
| JobserverTree.HistoryIsRun | tools/make-3.81/job.c:1640-1724 | the token history of one process is a run of the tree, and the pipe holds what its counter does not |
| Jobs.NextCommand | tools/make-3.81/job.c:1740-1759 | the next line with text in it; no text that was to be done is skipped |
| Jobs.TextOfLines | tools/make-3.81/job.c:1740-1759 | the text of a job is that of its lines in order, each line with text given a newline |
| Jobs.AfterCommand | tools/make-3.81/job.c:1014-1030 | a command that ends at a newline leaves just what is behind it for later, and nothing otherwise |
| Jobs.CommandRan | tools/make-3.81/job.c:1014-1030 | a command cut off moves from what is left to what was done: nothing twice, nothing lost |
| Jobs.StartCommand | tools/make-3.81/job.c:966-1414 | a child runs if a process runs the first command with something to execute, fails with status 2 if none can be made and with 1 if it was only asked for, and without such a command is done; only a child whose whole text was done counts as remade |
| Jobs.Make.constructor | tools/make-3.81/job.c:207-231 | counters and chains begin empty and agree |
| Jobs.Make.FreeChild | tools/make-3.81/job.c:843-890 | the child leaves and its token goes back; the INTERNAL error of freeing without tokens is never reached |
| Jobs.Make.ReturnToken | tools/make-3.81/job.c:843-868 | one token less, written to the pipe unless it was the free one |
| Jobs.Make.StartWaitingJob | tools/make-3.81/job.c:1420-1480 | the job waits exactly if another runs and the load is too high; it is in exactly one chain or finished afterwards, and the counters agree with the chains |
| Jobs.Make.ReapChildren | tools/make-3.81/job.c:446-839 | whatever children die in whatever order, each job stays in one place with its lines and counters stay equal to chain lengths; make dies exactly if a command failed where that matters and it is not to keep going |
| Jobs.Make.HandleExit | tools/make-3.81/job.c:715-800 | a child fails exactly if its process did and that is not ignored; otherwise it goes on with its next command, and without one it is finished with status 0; its text is accounted for |
| Jobs.Make.RemoveChild | tools/make-3.81/job.c:806-825 | a finished child leaves the chain, its slot opens and its token goes back |
| Jobs.Make.StartWaitingJobs | tools/make-3.81/job.c:1867-1890 | waiting jobs start in turn and the invariant holds |
| Jobs.Make.WaitForToken | tools/make-3.81/job.c:1640-1724 | ends with a token counted; the INTERNAL error of sleeping without children is never reached |
| Jobs.Make.NewJob | tools/make-3.81/job.c:1484-1737 | the job is accepted with just the lines and the flag it was given, after all jobs before; every job accepted is in one place, with its lines; make goes on exactly as long as no command has failed where that matters, or is to keep going |
| Jobs.Make.FinishJob | tools/make-3.81/job.c:1730-1734 | in linear mode the one running job is over on return |
| Jobs.Make.LinearJobsDone | tools/make-3.81/job.c:1730-1734 | in linear mode every job accepted so far is finished, once |
| Jobs.Make.RemadeRan | tools/make-3.81/job.c:769-788 | of every job that counts as remade, all the text it was accepted with has been run, in order |
| Jobs.Make.CleanJobserver | tools/make-3.81/main.c:2988-3013 | with all children gone, the net effect of the process on the pipe is what its end does in JobserverTree with as many tokens as jobs wait: nothing without waiting jobs, one token made after status 2, and those taken from the pipe lost otherwise |
| Jobs.Make.Die | tools/make-3.81/main.c:3041-3082 | a process that ends with an error has waited for its children, every job is still in one place with its lines, and the same holds of its net effect on the pipe |
| ArgvBlocks.SwapBlocks | tools/make-3.81/getopt.c:343-349 | two disjoint blocks of equal length change places, the rest stays |
| ArgvBlocks.LowerBlockPlaced | tools/make-3.81/getopt.c:336-352 | when the lower block is the shorter one, swapping it with the top of the upper one puts it in place and leaves a smaller exchange of the same kind |
| ArgvBlocks.UpperBlockPlaced | tools/make-3.81/getopt.c:353-369 | otherwise, swapping the upper block with the bottom of the lower one does the same |
| ArgvBlocks.Exchange | tools/make-3.81/getopt.c:299-376 | exactly a rotation of the two adjacent segments |
| Getopt.LookUpLong | tools/make-3.81/getopt.c:632-669 | an exact name wins wherever it stands; otherwise a single option of which the name is an abbreviation |
| Getopt.Scanner.AdvanceElement | tools/make-3.81/getopt.c:528-603 | the next element to look at, with non-options gathered behind the options so far |
| Getopt.Scanner.ShortOption | tools/make-3.81/getopt.c:754-949 | the answer for the next character of a cluster, its argument, and the new position; what they are is said by GetoptRoundTrip.ReadsBack |
| Getopt.Scanner.LongOption | tools/make-3.81/getopt.c:620-750 | the answer for a long option, its argument, and the new position |
| Getopt.Scanner.GetOpt | tools/make-3.81/getopt.c:502-949 | one call answers what the original arguments call for, whatever was moved so far |
| Getopt.ParseAll | tools/make-3.81/getopt.c:502-949 | calling until -1 gives the answers told from the original vector, and leaves used elements first and the others behind them, both in original order, with optind between |
| GetoptSpec.SelectIsPermutation | tools/make-3.81/getopt.c:299-376 | selecting by a mark and its opposite loses and makes no element |
| Getopt.FinalIsPermutation | tools/make-3.81/getopt.c:528-603 | the vector left behind is a permutation of the original |
| Getopt.UsedIsPrefix | tools/make-3.81/getopt.c:528-603 | in the two other orderings the elements used up are the first ones |
| Getopt.InOrderUnchanged | tools/make-3.81/getopt.c:528-603 | in these orderings the vector stays as it was and optind is at the first unused element |
| Getopt.LeftOverOperands | tools/make-3.81/getopt.c:528-603 | a permuting scan leaves nothing with option syntax unless it stands behind a used "--" |
| GetoptRoundTrip.KindIsEntry | tools/make-3.81/getopt.c:754-765 | an option string written from entries, each a character and what it takes, reads back as these entries |
| GetoptRoundTrip.FoundExactly | tools/make-3.81/getopt.c:632-669 | a name stands for the first option of just this name, or else for the only option it is the beginning of; otherwise for none |
| GetoptRoundTrip.FirstCallSees | tools/make-3.81/getopt.c:384-450 | a first character that chooses the ordering is seen by later calls only |
| GetoptRoundTrip.ReadsBack | tools/make-3.81/getopt.c:502-949 | a vector written from clusters of flags, options with attached, separate, absent or missing arguments, long options in their forms, unknown ones, operands and "--" is answered just that, in order |
| GetoptRoundTrip.ParseWritten | tools/make-3.81/getopt.c:502-949 | parsing such a vector gives these answers and leaves the elements used up in front and the operands behind them, as they were written |
| PatternRules.FindLastSlash | tools/make-3.81/implicit.c:278-302 | the last slash, or none if the name ends with one |
| PatternRules.FitsIff | tools/make-3.81/implicit.c:335-393 | a pattern with a nonempty stem, or behind a directory with any stem, rebuilds the name exactly if its two parts are found at their places |
| PatternRules.MatchTarget | tools/make-3.81/implicit.c:335-393 | finds the stem exactly when one exists; directory, pattern and stem rebuild the name |
| PatternRules.InFromRules | tools/make-3.81/implicit.c:308-412 | the candidates are exactly the usable rules one of whose targets fits |
| PatternRules.CollectRules | tools/make-3.81/implicit.c:308-426 | the list of candidates in order, without the rules for any file when a specific pattern matched |
| PatternRules.TryableExactly | tools/make-3.81/implicit.c:308-426 | the rules tried are those with commands that no search above is trying, for each target with which some stem gives the name; "%" is left out for intermediate files, and once another target gives the name, unless the rule is terminal |
| PatternRules.TryableInOrder | tools/make-3.81/implicit.c:308-412 | they are tried in the order of the rules and of their targets |
| Derivations.NamesInOrder | tools/make-3.81/implicit.c:486-647 | the prerequisites of a rule word by word, in order: a word as it stands, or with the stem in place of its first percent sign and the directory in front |
| Derivations.DerivesStill | tools/make-3.81/implicit.c:656-761 | a derivation stays one when more files are targets |
| Derivations.NoRuleRepeats | tools/make-3.81/implicit.c:460-462 | no rule repeats on a way down a derivation, and none is in use above it |
| Derivations.PathsAreShort | tools/make-3.81/implicit.c:460-462 | no way down is longer than the number of rules |
| Derivations.LeavesAvailable | tools/make-3.81/implicit.c:681-716 | a derivation rests on explicit prerequisites, targets, existing files and files found along VPATH only |
| ImplicitSearch.ExpandPrereqs | tools/make-3.81/implicit.c:486-647 | the names of a rule's prerequisites, with the stem in place and the directory in front |
| ImplicitSearch.Search.TestPrereq | tools/make-3.81/implicit.c:656-761 | a prerequisite is there, or gets a derivation of its own in the second pass, or is ruled out |
| ImplicitSearch.Search.TryRule | tools/make-3.81/implicit.c:455-777 | the rule is in use only meanwhile; in the first pass it applies exactly if all its prerequisites are there |
| ImplicitSearch.Search.TryRules | tools/make-3.81/implicit.c:435-785 | the first candidate that applies; candidates with an impossible prerequisite are struck out, and when none applies each is terminal or needs an impossible file |
| ImplicitSearch.Search.PatternSearch | tools/make-3.81/implicit.c:199-785 | ends by the number of rules not in use, restores every in_use flag, and answers a derivation; a candidate that needs no intermediate file is always preferred, the first such one; without an answer, every rule that may be tried is terminal or needs a file that is impossible, and every such file was searched for in vain |
| ImplicitSearch.ExhaustedPlus | tools/make-3.81/implicit.c:719-761 | a name ruled out after a search in vain leaves what is said of all others true |
| ImplicitSearch.Search.Conclude | tools/make-3.81/implicit.c:797-933 | the file gets the prerequisites of the derivation in order, and behind them those it had; the commands of the rule; and a stem that, put into the target pattern with the directory, rebuilds the name; intermediate files become targets with their own |
| ImplicitSearch.EntryShows | tools/make-3.81/implicit.c:820-933 | what the entry of a file with a derivation shows: prerequisites of the rule first, in order, then those it had, commands, and a stem that rebuilds the name |
| ImplicitSearch.Search.EnterIntermediate | tools/make-3.81/implicit.c:827-871 | an intermediate file becomes a target whose entry shows its derivation |
| ImplicitSearch.RecordShows | tools/make-3.81/implicit.c:827-871 | the same of every intermediate file, which has no other prerequisites |
| ImplicitSearch.RecordSettled | tools/make-3.81/implicit.c:827-871 | every prerequisite a new target has in the table is there or is a target itself |
| ImplicitSearch.Search.TryImplicitRule | tools/make-3.81/implicit.c:38-49 | when a rule is found the file has its prerequisites, in order, and behind them its own, its commands, and a stem that rebuilds the name; every new target was derived from the targets before it, old targets keep their entries, only names without a file were ruled out, and the first ready candidate is used if there is one; without a rule, every one that may be tried is terminal or needs a file that was searched for in vain |
| Quoting.QuoteForEnv | tools/make-3.81/main.c:2648-2661 | writes exactly the quoted form, which fits into twice the length, and nothing else |
| Quoting.QuotedLast | tools/make-3.81/main.c:2648-2661 | a dollar is doubled, and a space, tab or backslash gets a backslash in front; nothing else changes |
| Quoting.ExpandQuoted | tools/make-3.81/expand.c:217-238 | expanding once undoes the doubled dollars and nothing else |
| Quoting.SplitEscaped | tools/make-3.81/main.c:2612-2627 | splitting takes escaped text into one word, unchanged |
| Quoting.SplitPieces | tools/make-3.81/main.c:2612-2627 | a character behind a backslash goes into the word, spaces and tabs end it, other text goes into it |
| Quoting.SplitWords | tools/make-3.81/main.c:2599-2629 | the words of the value, each with its null, in a buffer of twice and a vector of two more than its length, neither of which overflows |
| Quoting.DecodeEnvSwitches | tools/make-3.81/main.c:2593-2629 | no words for a blank value, else the words and their number |
| Quoting.RoundTrip | tools/make-3.81/main.c:2599-2661 | quoting, joining, expanding once and splitting gives back every word but empty ones before the last |
| Quoting.RoundTripExact | tools/make-3.81/main.c:2599-2661 | a list comes back unchanged if and only if no word but the last is empty and it is not the one empty word |
| ShellWords.ScanQuoted | tools/make-3.81/job.c:2417-2468 | inside quotes, a turn leaves what the quoting rules of the shell make of the line unchanged and adds to the word just the text they say; it leaves to the shell only a dollar, backquote or backslash in double quotes, and ends the line only at a newline |
| ShellWords.ScanUnquoted | tools/make-3.81/job.c:2469-2604 | one turn of the scan outside of quotes |
| ShellWords.TurnFits | tools/make-3.81/job.c:2398-2412 | a scan never writes more than it reads and never finds more words than characters |
| ShellWords.FastPath | tools/make-3.81/job.c:2396-2634 | if words are found, they are the words of the command by the quoting rules of the shell, up to the same newline, if and only if the line is regular; buffer and vector as long as the line with its null are enough |
| ShellNeeds.TableExact | tools/make-3.81/job.c:2304 | the table holds exactly the characters that are special to the shell, the double quote, and two that were special to older shells |
| ShellNeeds.NeedsMet | tools/make-3.81/job.c:2410-2604 | a line with a special character outside of quotes, or an expansion in double quotes, is not split without the shell, whatever is quoted before it; behind an escaped character this is said of lines that begin with the shell only |
| ShellNeeds.SpecialNeedsShell | tools/make-3.81/job.c:2462-2464 | so every line with an operator, expansion, pattern, comment, tilde, brace or exclamation mark before any quote, backslash or newline goes to the shell |
| ShellNeeds.AssignmentNeedsShell | tools/make-3.81/job.c:2474-2482 | and every line whose first word has an equals sign in it |
| ShellNeeds.BuiltinNeedsShell | tools/make-3.81/job.c:2305-2309 | and every line that begins with one of these builtins or reserved words |
| ShellNeeds.FirstIsNoBuiltin | tools/make-3.81/job.c:2577-2623 | however it is quoted, the first word of what is split without the shell is none of these |
| ShellMeaning.SplitExact | tools/make-3.81/job.c:2396-2634 | the words found and the newline the scan stops at are those of the quoting rules if and only if: the line begins with the shell or has no backslash outside of quotes but before a newline or at the end; newlines end the line or there is none outside of quotes; and no empty word in quotes is joined by a backslash-newline to the blanks behind it, with more words to come |
| ShellMeaning.RunKeeps | tools/make-3.81/job.c:2410-2604 | words found stay found, and the word in progress is the beginning of the next one |
| ShellMeaning.QuotedMeans | tools/make-3.81/job.c:2414-2461 | a turn inside quotes takes the text for what the quoting rules say |
| ShellPlain.PlainCommand | tools/make-3.81/job.c:2410-2634 | a command of plain words that is no builtin is split into just these words, without the shell |
| ShellPlain.UsualCommand | tools/make-3.81/job.c:2410-2634 | words of letters, digits and the usual punctuation of file names, the first no builtin, are split into just these words, without the shell |
| ShellPlain.ContinuedCommand | tools/make-3.81/job.c:2488-2501 | a backslash-newline with or without a tab joins two parts of a word, and after a blank separates two words |
| ShellPlain.QuotedCommand | tools/make-3.81/job.c:2410-2634 | a command of words in single quotes is split into just these words, whatever they hold but single quotes and newlines |
| ShellPlain.EscapedBlank | tools/make-3.81/job.c:2529-2540 | an escaped blank in a line that does not begin with the shell ends the word and leaves the backslash on it, while the quoting rules make it a part of the word |
| ShellPlain.EmptyWordLost | tools/make-3.81/job.c:2488-2501 | an empty word in quotes, a backslash-newline and a blank make one word with what follows, while the quoting rules make two |
| ShellArgv.EscapeLine | tools/make-3.81/job.c:2718-2772 | the escaped line, within twice its length, up to the first newline that no backslash precedes |
| ShellArgv.TextMeaning | tools/make-3.81/job.c:2724-2772 | the text given to the shell is the line up to that newline less one tab behind each backslash-newline |
| ShellArgv.TextPieces | tools/make-3.81/job.c:2724-2772 | the text piece by piece: a backslash-newline loses one tab behind it, a bare newline ends the text or is left out, other text is kept |
| ShellArgv.BareNewlineLost | tools/make-3.81/job.c:2724-2772 | where newlines do not end the line, the text is right if and only if there is no bare newline |
| ShellArgv.EscRun | tools/make-3.81/job.c:2503-2541 | scanning an escaped line behind the default shell gives its text back in one word |
| ShellArgv.ShellLine | tools/make-3.81/job.c:2710-2826 | the default shell, " -c " and the escaped line are split into the shell, "-c" and the text |
| ShellArgv.ConstructArgv | tools/make-3.81/job.c:2330-2826 | with the default shell: the words of the fast path, or exactly shell, "-c" and text after starting again, as for every line with a special character outside of quotes or a builtin in front; with another shell: the words of "SHELL -c" and the escaped line, or that line as a whole for the default shell; where the line is left off, with the fast path and without; it always ends |
| OtherShell.OtherShellExact | tools/make-3.81/job.c:2529-2540 | another shell gets "-c" and the text of the line if and only if its name begins with that of the default shell or nothing in the line up to its end needs an escape, bare newlines aside |
| OtherShell.OtherShellSplits | tools/make-3.81/job.c:2529-2540 | for every two plain words a shell whose name does not begin so gets two arguments, the first with a backslash on it |
| Division.StepLinear | tools/elf2e32/crc.c:114-128 | a step of the division is linear over exclusive or |
| Division.StepInjective | tools/elf2e32/crc.c:114-128 | no two remainders step to the same one |
| Words16.Step8Linear | tools/elf2e32/crc.c:110-129 | eight steps are linear |
| Words16.SplitTop | tools/elf2e32/crc.c:211-233 | bringing a byte in splits into the table index and the byte that stays |
| Crc.BytesAreBits | tools/elf2e32/crc.c:94-136 | division byte by byte is division bit by bit |
| Crc.CheckValue | tools/elf2e32/crc.c:94-136 | the check value of the nine digits is that of CRC-CCITT with initial remainder zero, and a single bit shows the polynomial |
| Crc.AppendedCrcIsZero | tools/elf2e32/crc.c:94-136 | a message with its CRC appended, high byte first, has CRC zero |
| Crc.CrcInjective | tools/elf2e32/crc.c:94-136 | different remainders stay different, whatever bytes follow |
| Crc.BurstDetected | tools/elf2e32/crc.c:94-136 | any change confined to sixteen bits in a row, anywhere, changes the CRC |
| Crc.TwoBytesDetected | tools/elf2e32/crc.c:94-136 | any change confined to two adjacent bytes changes the CRC |
| CrcLoops.Divide | tools/elf2e32/crc.c:110-129 | the loop shared by the two forms is eight steps of the division |
| CrcLoops.CrcSlow | tools/elf2e32/crc.c:94-136 | the bitwise form computes the CRC of the message |
| CrcLoops.CrcInit | tools/elf2e32/crc.c:155-197 | the table holds the remainder of every byte |
| CrcLoops.CrcFast | tools/elf2e32/crc.c:211-233 | with the table ready, the table-driven form computes the CRC of the message, as crcSlow does |
| UidChecksum.UidCrc | tools/elf2e32/e32image.cpp:285-293 | the checksum of the UID triple |
| UidChecksum.CheckHalves | tools/elf2e32/e32image.cpp:285-293 | the upper half is the CRC of the second and fourth bytes of the UIDs, the lower half that of the others |
| UidChecksum.NarrowLeft | tools/genaif.c:90-103 | what is above bit 15 of the accumulator never comes back |
| UidChecksum.DoCrc16 | tools/genaif.c:83-103 | one more byte of the CRC, for any accumulator |
| UidChecksum.UidCsum | tools/genaif.c:105-118 | the same checksum of the UID triple as elf2e32 computes |
| UidChecksum.UidChangeDetected | tools/elf2e32/e32image.cpp:285-293 | changing any one UID changes the checksum |
| Relocations.RelocationList.AddRelocation | tools/elf2e32/reloc.h:137-141 | one relocation more, filed under its page |
| Relocations.SublistSize | tools/elf2e32/reloc.h:142-150 | the least multiple of four that holds the header and the entries of a block |
| Relocations.PageLayout | tools/elf2e32/reloc.cpp:187-206 | what is at which byte of a block: page, size, for each relocation its offset with 0x1000 added for code and 0x2000 for data, and zeros |
| Relocations.SortByOffset | tools/elf2e32/reloc.cpp:187-189 | the relocations of a page, ascending, none lost |
| Relocations.ReadPage | tools/elf2e32/reloc.cpp:187-206 | a block reads back as the relocations of its page, with the padding skipped |
| Relocations.ReadAll | tools/elf2e32/reloc.cpp:208-217 | the blocks read back as the relocations in them, in order |
| Relocations.RelocationList.WriteSublist | tools/elf2e32/reloc.cpp:187-206 | the block of a page, sorted in place; no other page changes |
| Relocations.RelocationList.Write | tools/elf2e32/reloc.cpp:208-217 | size, count and blocks; below 2^32 bytes they are a section of exactly the relocations added |
| Relocations.WrittenSection | tools/elf2e32/reloc.cpp:208-217 | the size word is the bytes behind the header, everything is a multiple of four, the count word is the number added, and parsing gives, by ascending offset, exactly the multiset of added offsets with their types, all of them if and only if every value lies in the code or the data |
| Relocations.TypedMultiset | tools/elf2e32/reloc.cpp:194-203 | what relocations come to does not depend on their order |
| Relocations.TypedExact | tools/elf2e32/reloc.cpp:194-203 | parsing loses nothing if and only if every value lies in the code or in the data |
| Exports.ExportList.AddExportOrdinal | tools/elf2e32/reloc.h:211-219 | a name is frozen at its ordinal, gaps are filled with nameless entries, and all behind the frozen ordinals have names |
| Exports.FrozenDistinct | tools/elf2e32/reloc.h:211-219 | distinct names frozen at distinct ordinals stay distinct in the list |
| Exports.Freeze | tools/elf2e32/reloc.h:211-219 | after freezing names in any order each is at its ordinal and the list has no other named entries |
| Exports.ExportList.AddExport | tools/elf2e32/reloc.cpp:221-237 | a known name gets its address, a new one is appended; names stay distinct |
| Exports.AfterAddingAt | tools/elf2e32/reloc.cpp:221-237 | the first entry of the name gets the address, and code and size if it had no size; other entries stay; a new name is appended |
| Exports.ExportList.DoSort | tools/elf2e32/reloc.h:189-224 | no frozen ordinal moves, new names are in order, and no nameless entry is compared |
| Exports.FirstDifference | tools/elf2e32/reloc.h:189-198 | at the first place where two names differ the smaller character comes first, and a beginning comes before the whole |
| Exports.StillDistinct | tools/elf2e32/reloc.h:222-224 | sorting keeps names distinct |
| Exports.BuildHash | tools/elf2e32/reloc.cpp:326-373 | symbols, ordinal words and a hash table with every bucket chained from its last symbol to its first |
| Exports.TableLayout | tools/elf2e32/reloc.cpp:326-373 | the hash section word by word: numbers of buckets and symbols, the last symbol of each bucket, and for each symbol the one before it |
| Exports.NextTable | tools/elf2e32/reloc.cpp:368-370 | entering a symbol at the front of its bucket keeps the table right |
| Exports.Lookup | tools/elf2e32/reloc.cpp:326-373 | a linker's walk along a bucket ends and finds the last symbol of the name, or none if there is none |
| Exports.FoundAtOrdinal | tools/elf2e32/reloc.cpp:351-373 | with distinct names each is found at the symbol whose ordinal word is its place in the list, counted from 1 |
| Exports.ExportAll | tools/elf2e32/reloc.cpp:221-373 | frozen ordinals, then exported names, then sorting and writing: names stay distinct, each frozen name stays at its ordinal, and the tables written are right for that list |
| Exports.Resolve | tools/elf2e32/reloc.cpp:326-373 | looking a name up in these tables gives an ordinal exactly if the name was frozen or exported, and for a frozen name it is the ordinal it was frozen at |
| Continuations.CountBackslashes | tools/make-3.81/misc.c:91-106 | half of the backslashes and their parity; the abort is never reached |
| Continuations.BreakLine | tools/make-3.81/misc.c:91-126 | writes the break of a line without passing the reader |
| Continuations.CopyLine | tools/make-3.81/misc.c:128-145 | copies up to the next backslashes that end a line, without passing the reader |
| Continuations.CollapseContinuations | tools/make-3.81/misc.c:74-149 | in place, exactly the collapsed text of the original string |
| Continuations.NeverLonger | tools/make-3.81/misc.c:74-149 | the result is never longer than the text |
| Continuations.NothingToJoin | tools/make-3.81/misc.c:74-149 | lines that do not end with a backslash stay as they are |
| Continuations.LineKept | tools/make-3.81/misc.c:91-126 | a line that ends with an even number of backslashes keeps half of them and its newline |
| Continuations.LineJoined | tools/make-3.81/misc.c:91-126 | a line that ends with an odd number is joined to the next by one space, which stands for the blanks around the backslash-newline |
| Continuations.DroppedIsBlank | tools/make-3.81/misc.c:118-120 | nothing but spaces and tabs is dropped in front of the space |
| Abspath.BackUp | tools/make-3.81/function.c:1926-1931 | backs up to the component before; the scan stops at the leading slash at the latest |
| Abspath.Append | tools/make-3.81/function.c:1932-1943 | appends a component exactly if it fits |
| Abspath.AbsPath | tools/make-3.81/function.c:1881-1953 | the buffer holds the components folded over a stack, or the answer is that there is no name or it is too long |
| Abspath.AnswerIsClean | tools/make-3.81/function.c:1881-1953 | an answer begins with a slash, has only ordinary components, no trailing slash unless it is the root, and fits |
| Abspath.Idempotent | tools/make-3.81/function.c:1881-1953 | an answer is its own absolute name |
| Abspath.ParentCancels | tools/make-3.81/function.c:1926-1931 | a component and the ".." behind it are as good as not there |
| Abspath.DotIsNothing | tools/make-3.81/function.c:1924-1925 | a "." is as good as not there |
| Abspath.ParentOfRoot | tools/make-3.81/function.c:1926-1931 | a ".." at the root stays there |
| Abspath.RelativeToStart | tools/make-3.81/function.c:1893-1908 | a name without a leading slash is one in the starting directory |
| DirCache.ReadOn | tools/make-3.81/dir.c:671-726 | reads until the name is found or the directory is read in, and enters just the names read on the way; answers whether the name was still to be read |
| DirCache.MarkStays | tools/make-3.81/dir.c:671-726 | reading on takes the mark from a name exactly if the name is read before the one that is looked for is found |
| DirCache.NameParts | tools/make-3.81/dir.c:765-797 | a name is the text before its last slash, the slash, and the text behind it; without a slash it is in ".", with nothing before it in "/" |
| DirCache.LookedForIn | tools/make-3.81/dir.c:742-797 | so a file is looked for in just the directory named, or in "." or "/" |
| DirCache.SharedExactly | tools/make-3.81/dir.c:420-574 | two names share their contents exactly if they are one name or have one device and inode |
| DirCache.Cache.ContentsFileExists | tools/make-3.81/dir.c:580-727 | whether a name is in the directory and not marked, from what is cached or by reading on; the empty name asks for the directory itself; marks are lost only of names of this directory that it has |
| DirCache.Cache.FindDirectory | tools/make-3.81/dir.c:420-574 | the contents shared by all names of a directory |
| DirCache.Cache.NewContents | tools/make-3.81/dir.c:509-566 | fewer than MAX_OPEN_DIRECTORIES streams are open afterwards, and the counter is their number, as between all operations |
| DirCache.Cache.FileExists | tools/make-3.81/dir.c:742-797 | exactly whether the file system has the file and it is not marked; for a name that ends with a slash, whether the directory can be opened or a name in it is marked |
| DirCache.Cache.FileImpossible | tools/make-3.81/dir.c:803-882 | one mark more, for the directory the name is in, whether or not the file is there |
| DirCache.Cache.FileImpossibleP | tools/make-3.81/dir.c:886-962 | exactly whether the name is marked |
| DirCache.Session | tools/make-3.81/dir.c:420-962 | any questions from an empty cache on are answered by the file system and the names marked before; only for a marked name that the file system has may the mark be lost meanwhile, and an answer then be that of an unmarked one |

## Left out

- Hash table statistics, `hash_map`, `hash_dump`, `hash_free` and `hash_load`: easy, or only printing.
- HashRuns.Run: runs of fewer than about two thousand million insertions, which keep the size at 2^31 or below, because probe positions are 32 bits wide.
- HashTables.HashTable.constructor: requests below 2^31, for the same reason.
- HashTables.HashTable.InsertAt: tables of at most 2^31 slots before the insertion.
- HashTables.HashTable.Insert: tables of at most 2^31 slots before the insertion.
- HashTables.HashTable.Rehash: tables of at most 2^31 slots, which may then double.
- Jobs.AfterCommand: at which newline a command ends is a parameter, so that what is said of jobs holds for any; for a command line it is stated of `ShellArgv.ConstructArgv`.
- Jobs.Make.ReapChildren: children are values in the chains rather than nodes that also hang on a `struct file`; fatal signals, remote jobs, the child of the shell function, children of unknown origin and the race with SIGCHLD are left out, and `-q`, `-t` and `-n` are outcomes of the environment.
- Jobs.Make.NewJob: that `job_slots_used` stays within `job_slots` is claimed only without a load limit, because jobs that leave the waiting chain are not checked against it again.
- JobserverTree.Conservation: one sub-make for each job.
- Filter.FilterFilterOut: where the percent sign of a pattern is, and its unquoting, is taken from `find_percent`, which is not part of this model; fewer than 2^30 words.
- Filter.HashWords: fewer than 2^30 words, so that the table stays within 2^31 slots.
- Getopt.ParseAll: option strings that do not ask for long options behind `-W` (`W;`), as none of make's does; flag pointers, the index of a long option, `optopt`, `getopt_long_only`, messages, and a caller that moves `optind` back are left out.
- Getopt.Scanner.ShortOption: only option strings without `W;`.
- Getopt.Scanner.LongOption: no flag pointers, and the index of the option is not told.
- Getopt.Scanner.GetOpt: only option strings without `W;`; no flag pointers and long options behind a single dash.
- GetoptRoundTrip.ReadsBack: option characters other than `-` and `+`, which later calls see in the option string when the first does not; and where an argument is missing, no colon behind such a first character.
- ShellNeeds.BuiltinNeedsShell: the table of the source, which has neither `return` nor `unset`; these are run without the shell.
- ImplicitSearch.Search.PatternSearch: a file is found impossible under the rules in use at the time, so a later search may miss a derivation, as in the code; the second search of an archive member, second expansion, order-only marks, `also_make` and precious files; a rule's prerequisites are a list of words, and the names a word stands for are what globbing says.
- ImplicitSearch.ExpandPrereqs: no second expansion and no order-only marks.
- ImplicitSearch.Search.Conclude: no `also_make`, precious and `tried_implicit` marks.
- ImplicitSearch.Search.EnterIntermediate: no precious, intermediate and `tried_implicit` marks.
- ImplicitSearch.Search.TryImplicitRule: no second search for an archive member; a file that was entered as an intermediate file of its own search keeps the prerequisites it got there instead of those it had.
- Quoting.RoundTrip: expansion is followed for doubled dollars only; variable references have no value in this model. The dash put in front of a first word without one comes after the splitting and is left out.
- Quoting.DecodeEnvSwitches: strings without inner nulls; the options themselves are decoded elsewhere.
- ShellWords.FastPath: the Unix configuration only; the words are a list, and that they fit their buffer and vector is proved of their sizes.
- ShellArgv.ConstructArgv: strings without inner nulls, and a default shell whose name is one plain word.
- ShellMeaning.SplitExact: says nothing of expansions, operators, builtins and assignments; lines with these are given to the shell.
- OtherShell.OtherShellExact: shells whose names are one plain word.
- UidChecksum.UidCrc: the shift of a 16-bit value into the sign bit of an `int` is taken as the unsigned shift.
- Relocations.WrittenSection: sections below 2^32 bytes; relocations at the same offset may come in any order.
- Exports.Freeze: no name and no ordinal is frozen twice; the code checks neither, and of two names at one ordinal the later one stays.
- Exports.ExportAll: frozen names and ordinals as for `Exports.Freeze`.
- Exports.BuildHash: the hash function is any function of the name; sections, string table, version records and file output are left out, and exports are values of which the list is the only owner.
- Abspath.AbsPath: the starting directory is itself absolute and clean, as getcwd gives it.
- DirCache.Session: the file system does not change meanwhile, and which of the marked names that it has are still marked is left to `DirCache.MarkStays`. Each hash table of the cache is the finite map it stands for (`HashRuns.Run`); the two are not composed.
- Windows, VMS, Amiga, MSDOS, EMX and DOS-path branches, archives, printing and messages.
- `remake.c`, `read.c` and `variable.c` are not part of this model; `notice_finished_file` leaves a file finished.
- `ImportList`, symbol lookup in ELF files, header layout, compression and section copying: fixed layout or library calls.
