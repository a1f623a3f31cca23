# zpmod: a verified model

zpmod is a Zsh module. It replaces `source` by a profiled version that compiles scripts behind the user's
back, builds plugin bundles, caches security audits and indexes, and reads records into arrays. Each of
these speeds up or records something simpler, and must agree with it. This project models those algorithms
in Dafny over an abstract file system, an abstract clock and byte strings, and proves the agreement.

`dafny verify dfyconfig.toml` checks everything. A byte is a `char`, a C string a `string` without NUL.

## The modules

| file | models | main results |
|---|---|---|
| `Text.dfy` | `strtol`, `fgets`, `strtok_r`, printf's numerals, `zp_parse_long` | printing and strict parsing are inverse on exactly the longs |
| `Order.dfy`, `CTypes.dfy` | `strcmp`, the integer types | a strictly sorted list is determined by its keys |
| `Clock.dfy` | `zp_elapsed_ns` | exact, overflow test exact, additive |
| `CallTree.dfy`, `SourceProfile.dfy` | `custom_source`, `zp_record_source` | the log is the post-order of the calls, decodes to one call forest, its durations are inclusive, shell state is restored |
| `ZwcFreshness.dfy` | `custom_try_source_file` | a script runs as its current text exactly when its dump is fresh, an edit keeps it fresh exactly when it is safe, and any run of safe steps keeps it so |
| `Json.dfy`, `SourceReport.dfy` | `source-study --json` | at any moment the report parses back to the newest events |
| `BundleTree.dfy`, `BundleSources.dfy`, `BundlePublish.dfy`, `BundleLayout.dfy` | `bundle-build` | which files a bundle takes and when a tree cannot be bundled, one bundle per tree, longest prefix under the cap, atomic publication |
| `BundleFreshness.dfy`, `BundleChange.dfy`, `BundleRuns.dfy` | the freshness test of `bundle-build` over changing trees | when a fresh bundle is current, for lists of sources, for files of a tree, and over runs of changes and builds |
| `LineFile.dfy`, `TabFields.dfy` | the fgets and `strtok_r` loops that `compaudit_cache.c` and `rehash_diff.c` share | a line comes back as its entry exactly when it is whole |
| `Audit.dfy`, `CacheFormat.dfy`, `CacheRoundTrip.dfy`, `CompauditCache.dfy` | the audit and its cache | loops equal the declarative audit, exact round trip, quiescence, patch equals rebuild |
| `FpathIndex.dfy`, `FpathScan.dfy`, `FpathSkip.dfy` | `fpath-index` | exactly when an index is kept, and when a kept one is what a rebuild would write |
| `RehashSnapshot.dfy`, `RehashDiff.dfy`, `RehashCommand.dfy` | `rehash-diff` | counters are set differences between runs, exact accounting, when the printed lists match them |
| `ReadArray.dfy` | `zpreadarray` | when the two record loops agree, in what they assign, when they call back and when they crash |
| `ReadFile.dfy` | the read and split loops of `fs.c` | canonical, unique split under any short reads |
| `SourceHot.dfy` | `source-hot` | grouping, conservation, exactly when every ranking that qsort may leave is right |

Code that changes state is a class or a method with loops, proved against a function; the lemmas are about
that function. Where the environment may make an operation fail, every failure is possible on a disk or file
marked as having `faults` and none on another; so the contracts also say that a call succeeds when nothing
fails.

## Where the code does less than expected

Each of these is a proved statement with the exact condition, or a concrete counterexample.

- A compiled script may change the input descriptor for good: `custom_source` puts SHIN back only when it
  read the script itself, src/core/source.c:677-682 (`SourceProfile.DescriptorBackIff`,
  with an instance in `SourceProfile.DescriptorKept`).
- An edit in the second in which the dump was written is not seen (`ZwcFreshness.SameSecondEditGoesStale`);
  edits are safe exactly when no dump at least as recent holds another text.
- `bundle-build` leaves a temporary file exactly when removing it fails too (`BundlePublish.Publish`).
- A bundle that counts as fresh need not be that of the tree: the test looks only at the mtimes of the sources
  that are there now, src/core/bundle_build.c:280-284. A deleted source is never noticed
  (`BundleFreshness.DeletionUnnoticed`, with an instance in `BundleFreshness.DeletedSourceStays`), and a fresh
  bundle stays current exactly through steps that are safe (`BundleFreshness.HonestIffSafe`, and for a file of a
  tree `BundleRuns.SiteHonestIffSafe`).
- A directory whose path begins with `#` is written to the audit cache and to the rehash snapshot, and read
  back as a comment (`CacheRoundTrip.StorableIffReadBack`, `RehashSnapshot.StorableIffReadBack`).
- Cache validation does not look at the stored ancestor flag. An accepted entry can have an outdated one
  exactly when the directory itself, or a compiled file in it, is insecure (`CompauditCache.FlagIsCurrentIff`,
  with an instance in `CompauditCache.StaleAncestorFlag`); the verdict is still right.
- A directory that is new on the fpath is not audited as long as the cached entries of the others validate, as
  src/core/compaudit_cache.c:635-652 does not look at the fpath then (`CompauditCache.NewDirectoryUnnoticed`).
- An fpath index written with `--preload` has no function lines, yet a later run without it keeps the file
  (`FpathSkip.PreloadedIndexIsKept`).
- An fpath index is kept at all exactly when no directory has white space in its name and its first function
  line does not look like a header line (`FpathSkip.KeptAtOnceIff`), and under the same condition it is kept for
  no other list (`FpathSkip.SkipIsExactIff`). With white space a wrong one may be kept:
  a directory of two words is taken for the first of them exactly when the second is a strict decimal equal to
  the mtime of that one (`FpathSkip.SpacedNameConfusedIff`).
- A kept fpath index is current exactly when the function lines are still the same (`FpathSkip.KeptIsCurrentIff`).
  A function added in the second of the build is missed (`FpathSkip.SameSecondFunctionMissed`).
- The two loops of `zpreadarray` differ on a last record without delimiter when `-s` skips more than the
  delimiters present, or when `-n` is negative (`ReadArray.LoopsAgreeIff`). The generic one never runs the
  callback for such a record (`ReadArray.CallsAgreeIff`); `ReadArray.LoopsDiffer` has an instance of each. `-c 0`
  divides by zero at the first assignment that a callback may follow, which the two loops reach alike exactly as
  `ReadArray.ZeroQuantumAgreesIff` says. Both drop an empty record at the
  end, src/builtins/zpreadarray.c:185, although docs/how-to/use-zpreadarray.md:29-35 shows it; the model
  follows the code.
- `rehash-diff` reports a directory that is twice on the path as removed (`RehashDiff.SecondRun`, with an instance
  in `RehashDiff.TwiceOnPath`). It lists unknown directories as added even when they do not exist
  (`RehashCommand.AddedListIff`, `RehashCommand.MissingListedAsAdded`), and a directory that is gone as changed
  besides counting it as removed (`RehashCommand.ChangedListIff`, `RehashCommand.MissingListedAsChanged`).
- The comparator of `source-hot` cuts a long difference to an int (`SourceHot.ComparatorIff`), so two scripts may
  be swapped (`SourceHot.WrongOrderIff`), and the ranking of a table is sure to descend exactly when no difference
  in it loses its sign (`SourceHot.DescendingIffHonest`).

## Model

| member | source | states |
|---|---|---|
| Text.ParseLongInvertsPrinting | src/core/utils.c:126-139 | the strict parser gives a printed integer back exactly when it fits a long |
| Text.StrtolPlain | src/core/utils.c:132-135 | strtol on nothing but digits gives their value, or LONG_MAX with ERANGE |
| Text.StrtolDigits | src/core/utils.c:132-135 | strtol on a printed number gives it back, or LONG_MAX with ERANGE |
| Text.StrtolPlus | src/core/utils.c:132-135 | a plus sign is read over |
| Text.SpacesAre | src/core/utils.c:126-139 | what counts as white space |
| Text.PrintIntInjective | src/core/source.c:123-124 | different ids have different table keys |
| Text.NonEmptyIff | src/core/compaudit_cache.c:287-290 | the nonempty elements of a path are kept, all of them and no others |
| Text.NonEmptyAppend | src/core/compaudit_cache.c:281-310 | in their order and as often as they occur |
| Text.EndsWithIff | src/core/source.c:418 | a suffix is what a text ends with |
| Text.BaseNameIs | src/core/source.c:412-424 | the base name is what follows the last slash |
| Order.StrcmpTransitive | src/core/bundle_build.c:209-214 | the order that qsort is given is transitive |
| Order.StrcmpFirstDifference | src/core/bundle_build.c:209-214 | behind a common beginning the shorter path, or the one with the smaller byte, comes first |
| Order.StrictlySortedUnique | src/core/bundle_build.c:274-276 | two strictly sorted lists with the same keys are the same list |
| Clock.ElapsedNs | src/include/zpmod_clock.h:7-24 | succeeds exactly when the stamps are in range, ordered and their distance fits 64 bits, and then returns that distance; no subtraction or sum wraps |
| Clock.ElapsedAdditive | src/include/zpmod_clock.h:13-22 | adjacent intervals add up |
| CallTree.DecodeSound | src/core/source.c:609-614 | whatever forest the decoder reads from a depth sequence, writing it gives the sequence back |
| CallTree.DecodeComplete | src/core/source.c:609-614 | every forest is read back from its depths, whatever shallower entries precede it |
| CallTree.DepthsDetermineCalls | src/core/source.c:609-614 | a depth sequence belongs to exactly one call forest |
| CallTree.DepthsOfPostOrders | src/core/source.c:697-698 | the depths logged in completion order are those of the forest of calls |
| CallTree.InclusiveTiming | src/core/source.c:606-607 | under a monotone clock every measured call lasts at least as long as its direct children together, at every level |
| CallTree.MonotoneIff | src/include/zpmod_clock.h:7-24 | what a monotone clock is: all readings good, in range and in order |
| CallTree.InclusiveIff | src/core/source.c:606-614 | what an inclusive log is, line by line |
| CallTree.ForestLogTiming | src/core/source.c:606-614 | read from the depths and durations alone, every timed call lasts at least as long as its children in the log |
| CallTree.TimeOfForest | src/core/source.c:609-614 | the time that the log shows at a depth since the last shallower line is that of the forest that ends there |
| CallTree.ForestTiming | src/core/source.c:90-122 | sibling calls together last no longer than the span that contains them |
| SourceProfile.Shell.RecordSource | src/core/source.c:90-126 | one record: the id is the next number, and a lost one marks the profile incomplete |
| SourceProfile.PathIsAbsolute | src/core/source.c:76-87 | from an absolute working directory the recorded path is absolute |
| SourceProfile.SpellingsOfOneScript | src/core/source.c:76-87 | a plain name, the same with `./` and the full name record one path, and a full name does so from anywhere |
| SourceProfile.EventTells | src/core/source.c:107-125 | an event tells the path, the depth, the status, the exit status and the exact time of its attempt |
| SourceProfile.CallsAppend | src/core/source.c:651-670 | the calls of a script are made in its order |
| SourceProfile.CallsOfOne | src/core/source.c:651-670 | exactly the nested attempts are calls, and each holds its own |
| SourceProfile.Shell.CustomSource | src/core/source.c:584-700 | in every nested run the profile is that of the calls completed so far; depth, command stack, function stack, source level and the saved variables are as at entry, and the return value is the outcome's; the input descriptor only on the interpreted and the not-found path; the last event tells this attempt, or the profile says that it is incomplete |
| SourceProfile.Shell.SourceScript | src/core/source.c:617-700 | the same for a script that is found, compiled or interpreted |
| SourceProfile.Shell.EnterScript | src/core/source.c:617-650 | what a script sees when it starts: a new frame naming its caller, an empty command stack, reset counters |
| SourceProfile.Shell.LeaveScript | src/core/source.c:671-696 | from any final state of the script, every saved variable is back, the input descriptor only after an interpreted script, and the return value is set |
| SourceProfile.DescriptorBackIff | src/core/source.c:675-682 | the input descriptor is another one afterwards exactly when a compiled script left another one |
| SourceProfile.DescriptorKept | src/core/source.c:675-682 | an instance: the shell keeps the descriptor with which a compiled script ends |
| SourceProfile.Shell.SwitchState | src/core/source.c:617-650 | the shell's side of entering a script |
| SourceProfile.Shell.Measure | src/core/source.c:118-119 | a duration exactly when both readings are good and it fits |
| SourceProfile.NothingWithoutTable | src/core/source.c:94-98 | without a table nothing is ever logged |
| SourceProfile.Shell.OpenFrame | src/core/source.c:609 | one more open attempt, one level deeper |
| SourceProfile.Shell.CloseFrame | src/core/source.c:697-698 | the innermost attempt completes after all attempts made in it |
| SourceProfile.Shell.RunBody | src/core/source.c:651-670 | any sequence of assignments and nested attempts appends exactly its completed calls and keeps the stacks |
| SourceProfile.RecordFramesInPostOrder | src/core/source.c:114-125 | with any scripts open, the records kept are those of the post-order of the completed calls |
| SourceProfile.LogIsCompletionOrder | src/core/source.c:94-125 | whatever is lost, the ids are 1..n; the flag is clear exactly when nothing was lost and all was timed, and then entry i is the i-th completed attempt |
| SourceProfile.CompleteLogDecodes | src/core/source.c:697-698 | a complete log at depth 0 decodes to exactly the calls that were made, with their durations |
| SourceProfile.CompleteLogIsInclusive | src/core/source.c:606-698 | under a monotone clock the durations of a complete log are inclusive: the children of every line, by their depths, take no more than it, and the top level no more than the whole span |
| SourceProfile.SourceOne | src/core/source.c:584-700 | a run to the letter |
| SourceProfile.TableLookup | src/core/source.c:740-741 | looking up a decimal id finds its event and no other |
| ZwcFreshness.Disk.TrySourceFile | src/core/source.c:399-458 | the program found is the entry of a dump that is not older than its script; otherwise none; and only a stale or missing dump is recompiled |
| ZwcFreshness.Disk.Source | src/core/source.c:610 | what one attempt runs, and the files it leaves |
| ZwcFreshness.CompiledIff | src/core/source.c:436-452 | a script is compiled exactly when its dump is missing or older, it is regular and readable, and its directory may be written or debugging is on |
| ZwcFreshness.CompiledOnce | src/core/source.c:436-452 | what was just compiled is not compiled again |
| ZwcFreshness.DumpRuns | src/core/source.c:452-457 | a dump that is not older than its script is what runs |
| ZwcFreshness.OthersRun | src/core/source.c:399-434 | a dump that is named runs its own entry, and without a dump the text runs |
| ZwcFreshness.RunsCurrentTextIffFresh | src/core/source.c:436-457 | a readable script runs as its current text exactly when a dump that counts holds that text |
| ZwcFreshness.LaterEditIsSafe | src/core/source.c:436 | an edit that is later than the dump is safe |
| ZwcFreshness.SafeSteps | src/core/source.c:436-452 | a run is safe step by step |
| ZwcFreshness.EditFreshIffSafe | src/core/source.c:436 | an edit keeps the dump fresh exactly when no dump at least as recent holds another text |
| ZwcFreshness.StepKeepsFresh | src/core/source.c:436-452 | edits that are safe, deletions and sourcing keep every dump fresh, whatever the compiler does |
| ZwcFreshness.SourceIsTransparent | src/core/source.c:399-458 | after any run of safe steps, sourcing any readable script has the meaning of its current content |
| ZwcFreshness.SameSecondEditGoesStale | src/core/source.c:452 | an edit within the second of the dump runs the old text |
| SourceReport.ParseCount | src/builtins/zpmod_builtin.c:332-350 | the digit loop accepts exactly the digit strings with a value up to INT_MAX, and returns the value |
| SourceReport.HexRoundTrip | src/core/source.c:755-762 | hex digits give every byte string back and need no escape |
| SourceReport.HexOfPath | src/core/source.c:757-762 | the byte loop writes the hex form of the path |
| SourceReport.SourceStudyJson | src/core/source.c:702-797 | the output is one document with exactly the newest min(k, n) events, all for k = 0, and the exit status tells whether the profile is complete |
| SourceReport.PrintEvents | src/core/source.c:733-792 | the loop over ids prints the events from the first id on, separated by commas |
| SourceReport.PrintEvent | src/core/source.c:746-775 | one event object |
| SourceReport.PrintNewest | src/core/source.c:733-792 | from the first id that the count allows to the newest |
| SourceReport.PrintOne | src/core/source.c:739-788 | the event of one id, after a comma unless it is the first |
| SourceReport.PrintHeader | src/core/source.c:714-720 | with any events and the closing brackets behind it, the document |
| SourceReport.ReportOf | src/core/source.c:702-797 | at any moment of any run the report reads back as the newest events of the completion order, and profiling that is unavailable reports none |
| SourceReport.ReadEvents | src/core/source.c:738-792 | every list of events reads back with ids, depths, statuses, path bytes and durations |
| SourceReport.ReportRoundTrip | src/core/source.c:713-796 | parsing the emitted text gives back the state, the clock and every event |
| SourceReport.HeaderIs | src/core/source.c:714-720 | the head of the document to the letter |
| SourceReport.EventIs | src/core/source.c:746-775 | an event to the letter |
| SourceReport.StatesAre | src/core/source.c:704-712 | which of the four state words is reported |
| SourceReport.HexDigitsAre | src/core/source.c:757-762 | two lower-case hex digits for a byte, the higher one first |
| Json.ReaderIsStrict | src/core/source.c:713-796 | the reader takes no raw control character, no leading zero, no fraction and no exponent |
| Json.ValueRoundTrip | src/core/source.c:713-796 | a reader of the compact subset of RFC 8259 sections 4 to 7 that the report uses inverts showing, whatever follows that does not extend a number |
| Json.EmitIsShow | src/core/source.c:746-775 | writing piece by piece gives the same text as showing the value |
| BundleTree.HasExt | src/core/bundle_build.c:32-42 | a name is accepted exactly when it ends in .zsh; the second suffix adds nothing |
| BundleTree.BbVec.Push | src/core/bundle_build.c:61-74 | an entry is appended below the capacity, which doubles when it is used up, or memory is out and nothing changes |
| BundleTree.Collect | src/core/bundle_build.c:97-204 | for any readdir order a success appends exactly the walk; it fails on a directory that makes every walk fail, else only for want of memory |
| BundleTree.CollectName | src/core/bundle_build.c:119-199 | one directory entry: hidden, bad, colliding, directory, file or other |
| BundleTree.WalkDistinct | src/core/bundle_build.c:128-133 | the relative paths of a walk are pairwise different |
| BundleTree.WalkSound | src/core/bundle_build.c:146-195 | everything collected is a visible regular .zsh file below the root that is not the output |
| BundleTree.WalkComplete | src/core/bundle_build.c:146-195 | every such file is collected |
| BundleLayout.SourceAtIs | src/core/bundle_build.c:119-195 | a file is a source exactly when it is regular, ends in .zsh, has no hidden name on its way and is not the output; its entry has its own path, size, mtime and content |
| BundleLayout.SourcesAre | src/core/bundle_build.c:97-204 | the sources of a tree are exactly the entries of those files |
| BundleLayout.FailsIff | src/core/bundle_build.c:99-199 | a tree cannot be bundled exactly when its root is too long or cannot be listed, or somewhere a visible name is too long, has a line end, cannot be looked at, or names a directory that cannot be listed or lies more than 64 deep |
| BundleSources.Qsort | src/core/bundle_build.c:274-276 | sorting is an ordered permutation |
| BundleSources.WalkSortsToSources | src/core/bundle_build.c:271-276 | sorting any walk gives the strictly sorted list of exactly the sources |
| BundleSources.SortedSourcesUnique | src/core/bundle_build.c:209-276 | there is one such list, whatever the readdir order |
| BundlePublish.CapIsLongestFit | src/core/bundle_build.c:316-327 | a prefix of the sorted files fits the limit exactly when it is no longer than what is emitted |
| BundlePublish.CapUnique | src/core/bundle_build.c:316-327 | the cut is determined by the list and the limit |
| BundleLayout.BundleGrows | src/core/bundle_build.c:308-370 | a bundle is its header and, for one source after the other, its bytes between two markers, to the letter |
| BundleLayout.HeaderIff | src/core/bundle_build.c:286-288 | different caps have different first lines |
| BundleLayout.CapInBytes | src/core/bundle_build.c:316-327 | the cap counts bytes of the sources, 1024 to a unit |
| BundlePublish.CopyChunks | src/core/bundle_build.c:349-364 | any fread schedule copies exactly `size` bytes or fails; the 64-bit subtraction and sum never wrap |
| BundlePublish.BeginSource | src/core/bundle_build.c:348-364 | the opening marker and exactly the file's bytes |
| BundlePublish.CopySource | src/core/bundle_build.c:348-369 | a frame is markers around exactly the file's bytes |
| BundlePublish.EmitNext | src/core/bundle_build.c:318-370 | one pass: refused size, cap reached, or one more frame; room and total never wrap |
| BundlePublish.EmitAt | src/core/bundle_build.c:318-370 | what the loop keeps from one file to the next |
| BundlePublish.EmitSources | src/core/bundle_build.c:316-370 | the frames of the longest prefix that fits; without faults, sound files always succeed |
| BundlePublish.WriteTemporary | src/core/bundle_build.c:308-375 | at every step only the temporary file differs; a success holds the complete bundle |
| BundlePublish.WriteAndRename | src/core/bundle_build.c:308-379 | at every step the output is old or complete |
| BundlePublish.Publish | src/core/bundle_build.c:297-390 | a failure at any step leaves the old content and no temporary file, unless removing that fails too |
| BundlePublish.FirstLineIs | src/core/bundle_build.c:286-288 | comparing the first line accepts exactly the files that begin with this header |
| BundlePublish.CheckFresh | src/core/bundle_build.c:279-292 | the bundle counts as fresh exactly when no source is newer and its header names the same cap |
| BundlePublish.Build | src/core/bundle_build.c:221-395 | every state of every run holds the old or a complete bundle; success is a fresh bundle untouched or the bundle of the tree; a sound request on a disk without faults succeeds |
| BundleLayout.AtomicMeans | src/core/bundle_build.c:297-390 | at every moment of a build the output is as it was or complete, and every other file but the temporary one is as it was |
| BundleLayout.CanBuildIf | src/core/bundle_build.c:221-306 | a request with proper names, a tree without trouble and files that deliver their size can be built |
| BundlePublish.BundleDeterministic | src/core/bundle_build.c:316-370 | two successful builds of the same tree write the same bytes, whatever the order and the chunks |
| BundleFreshness.DeleteIff | src/core/bundle_build.c:280-327 | after a deletion the old text is the bundle of the tree exactly when the source was not in it and, if it was the first that did not fit, the next does not fit either |
| BundleFreshness.InsertIff | src/core/bundle_build.c:280-327 | after an addition, exactly when the source comes after the files in the bundle and, right after them, does not fit |
| BundleFreshness.EditIff | src/core/bundle_build.c:280-327 | after a rewrite, exactly when the content is the same, or the source is not in the bundle and still does not fit |
| BundleFreshness.DeletionUnnoticed | src/core/bundle_build.c:279-284 | deleting sources never makes a fresh bundle stale |
| BundleFreshness.EditNoticedIff | src/core/bundle_build.c:279-284 | a rewritten or added source is noticed exactly when it is newer than the bundle |
| BundleFreshness.HonestIffSafe | src/core/bundle_build.c:279-296 | from a current bundle, a step leaves "fresh means current" true exactly when it is noticed or does not show in the bundle |
| BundleFreshness.DeletedSourceStays | src/core/bundle_build.c:279-296 | an instance: the only source is deleted and its bundle still counts as fresh |
| BundleFreshness.FreshIsCurrent | src/core/bundle_build.c:279-296 | after any run of safe steps and builds a bundle that counts as fresh is that of the tree |
| BundleFreshness.SafeSteps | src/core/bundle_build.c:279-296 | a run is safe step by step |
| BundleFreshness.RebuildIs | src/core/bundle_build.c:279-296 | a build leaves a fresh bundle alone and replaces any other, and the new one counts as fresh exactly when no source is newer |
| BundleChange.FileChange | src/core/bundle_build.c:146-276 | writing or removing one file of a tree edits, inserts or deletes one entry of the sorted sources, or none when no source is concerned |
| BundleChange.FoundElsewhere | src/core/bundle_build.c:119-195 | sources at other paths stay |
| BundleChange.SamePlace | src/core/bundle_build.c:128-133 | a relative path has one place in the tree |
| BundleChange.CanPutAtTop | src/core/bundle_build.c:146-195 | a file can be put into a directory under any name that is not that of a directory |
| BundleRuns.SiteHonestIffSafe | src/core/bundle_build.c:279-296 | from the bundle of a tree, changing a file leaves "fresh means current" true exactly when the change is safe |
| BundleRuns.ChangedIsSource | src/core/bundle_build.c:192 | a file that is written is a source with the size, the mtime and the content that it now has |
| BundleRuns.NewerFileNoticed | src/core/bundle_build.c:280-284 | a source that is written later than the bundle makes it stale |
| BundleRuns.OtherCapNoticed | src/core/bundle_build.c:286-288 | so does another cap |
| BundleRuns.BundleHolds | src/core/bundle_build.c:348-369 | without a cap, the bundle of a tree holds the bytes of every source between its markers |
| BundleRuns.BuildAfterEdit | src/core/bundle_build.c:221-395 | after a source was written later than the bundle, a build that succeeds leaves the bundle of the new tree |
| BundleRuns.BuildSite | src/core/bundle_build.c:221-395 | a build leaves the output as it was or the bundle of the tree; a success in an honest site leaves the bundle of the tree, written or found fresh |
| BundleRuns.FreshSiteIsCurrent | src/core/bundle_build.c:279-296 | after any run of safe changes of the tree and of builds, a bundle that counts as fresh is that of the tree |
| Audit.Auditor.DiscoverExeOwner | src/core/compaudit_cache.c:197-211 | the static owner is set once, to root when there is none |
| Audit.Auditor.IsInsecure | src/core/compaudit_cache.c:212-244 | exactly the permission rule of the design comment |
| Audit.Auditor.ParentInsecurePath | src/core/compaudit_cache.c:514-537 | cutting the buffer slash by slash finds an insecure ancestor exactly when some proper slash-prefix is insecure |
| Audit.Auditor.ZwcInsecureScan | src/core/compaudit_cache.c:248-277 | the readdir loop finds exactly an unreadable directory or a compiled file others may write |
| Audit.Auditor.AuditPath | src/core/compaudit_cache.c:471-476 | the verdict is the disjunction of the three |
| Audit.OwnInsecureDigits | src/core/compaudit_cache.c:212-244 | the permission rule on the octal digits of a mode |
| Audit.AncestorIff | src/core/compaudit_cache.c:514-537 | an ancestor is a directory that the path names before one of its slashes |
| Audit.ZwcInsecureIff | src/core/compaudit_cache.c:248-277 | when a directory is bad for its compiled files |
| CacheFormat.LoadCache | src/core/compaudit_cache.c:313-375 | what is loaded, for any file content, and when loading fails |
| CacheFormat.LineIs | src/core/compaudit_cache.c:490-500 | a line to the letter: path, verdict, octal mode, uid, gid, mtime, ctime and the two flags |
| CacheFormat.UnsignedIs | src/core/compaudit_cache.c:350-360 | a number that is stored in 32 bits |
| TabFields.StrTokTakesWord | src/core/compaudit_cache.c:337-345 | a strtok_r call takes the first of the words between the tabs and leaves the others |
| TabFields.PathOnlyAtStart | src/core/compaudit_cache.c:328-365 | a piece of a line with a path as long as the line's and all fields starts where the line starts |
| LineFile.WrittenReadsBack | src/core/compaudit_cache.c:328-335 | whole lines come back in order, whatever follows |
| LineFile.LongLine | src/core/compaudit_cache.c:319-335 | a line longer than the buffer comes in pieces, all but the first from inside it |
| LineFile.FileReadsBack | src/core/compaudit_cache.c:328-374 | a version line and whole lines that give their entries load as those entries |
| LineFile.VersionedIff | src/core/compaudit_cache.c:319-327 | a file is read exactly when it begins with the version, with or without a newline after it |
| LineFile.ReadBackIffWhole | src/core/compaudit_cache.c:328-374 | a line gives its entry alone exactly when it is whole, if no other piece of it does |
| CacheFormat.ReadEntry | src/core/compaudit_cache.c:336-365 | an entry exactly when the line has a path and eight more words between its tabs, and then made of the first nine |
| CacheFormat.ReadFields | src/core/compaudit_cache.c:345-349 | the first words, at most eight, as numbers, the second one octal |
| CacheRoundTrip.LineRoundTrip | src/core/compaudit_cache.c:490-500 | a storable line, followed by anything, is read back as its entry |
| CacheRoundTrip.FileRoundTrip | src/core/compaudit_cache.c:567-577 | loading what was written gives the written entries |
| CacheRoundTrip.StorableIffReadBack | src/core/compaudit_cache.c:328-374 | a line is read back as written exactly when its path is free of tab, newline and leading #, and it has at most 4096 characters |
| CompauditCache.Validate | src/core/compaudit_cache.c:378-409 | a cache is accepted exactly when every entry is what a new audit gives, but for the ancestor flag |
| CompauditCache.AcceptsIff | src/core/compaudit_cache.c:378-409 | validation accepts exactly the entries that tell what stat, the audit and the compiled files say now |
| CompauditCache.AcceptedVerdicts | src/core/compaudit_cache.c:395-407 | an accepted cache holds the entries that a rebuild over its paths would write now, but for the ancestor flag |
| CompauditCache.FlagIsCurrentIff | src/core/compaudit_cache.c:395-406 | every accepted entry that a writer could have left has the current ancestor flag exactly when neither the directory itself nor a compiled file in it is insecure |
| CompauditCache.OtherFlagIff | src/core/compaudit_cache.c:395-406 | otherwise the entry with the other flag is accepted as well |
| CompauditCache.StaleAncestorFlag | src/core/compaudit_cache.c:395-406 | an instance: a directory open to everybody, whose parent is opened later |
| CompauditCache.AuditOne | src/core/compaudit_cache.c:471-489 | both writers give an existing path the entry of the declarative audit |
| CompauditCache.WriteEntry | src/core/compaudit_cache.c:484-500 | one more line and one more in the count of its verdict |
| CompauditCache.CollectDirs | src/core/compaudit_cache.c:281-310 | the nonempty elements in order |
| CompauditCache.Rebuild | src/core/compaudit_cache.c:540-587 | the text is the audit of the existing targets in order, and the counts are its verdicts |
| CompauditCache.CcVec.AddMissing | src/core/compaudit_cache.c:421-457 | the old paths, then the missing nonempty elements, each once |
| CompauditCache.CcVec.Contains | src/core/compaudit_cache.c:427-433 | the scan finds exactly the stored paths |
| CompauditCache.CcVec.Refresh | src/core/compaudit_cache.c:458-509 | a patch writes byte for byte what a rebuild over the same paths writes, with the same counts, which add up to the lines |
| CompauditCache.CcVec.AuditInPlace | src/core/compaudit_cache.c:467-489 | one entry is overwritten by its new audit, or left if its path is gone |
| CompauditCache.RefreshedAt | src/core/compaudit_cache.c:466-489 | after the loop every entry is its new audit, or as before if its path is gone |
| CompauditCache.MergeKeepsDistinct | src/core/compaudit_cache.c:423-456 | a patch keeps paths distinct and covers exactly the old and the current ones |
| CompauditCache.UseCache | src/core/compaudit_cache.c:637-652 | the cache is kept exactly when it validates, or patched, or is to be rebuilt |
| CompauditCache.CompauditCore | src/core/compaudit_cache.c:600-682 | a usable cache is kept exactly when it validates; otherwise the file becomes the patch or the rebuild |
| CompauditCache.WrittenIsAudit | src/core/compaudit_cache.c:484-578 | what is written has one entry for every listed directory that exists and none for others, and each tells what is there now |
| CompauditCache.RebuiltIsAudit | src/core/compaudit_cache.c:540-587 | a rebuild is an audit of the fpath |
| CompauditCache.PatchedIsAudit | src/core/compaudit_cache.c:414-509 | a patch is an audit of the old paths and the fpath |
| CompauditCache.NewDirectoryUnnoticed | src/core/compaudit_cache.c:635-652 | a directory that is new on the fpath is not audited while the old entries validate |
| CompauditCache.AllStorableIf | src/core/compaudit_cache.c:490-500 | paths of up to 4000 characters without tab or newline and not beginning with # can be stored |
| CompauditCache.CountIs | src/core/compaudit_cache.c:672-682 | the count is the number of entries with an insecure verdict |
| CompauditCache.CountVerdicts | src/core/compaudit_cache.c:672-682 | the derived counts are those of the entries |
| CompauditCache.Quiescent | src/core/compaudit_cache.c:313-409 | after a rebuild or patch, at rest, loading gives the written entries, validation accepts them, and every verdict is the declarative audit's |
| CompauditCache.WrittenIsKept | src/core/compaudit_cache.c:630-652 | at rest the condition for keeping the cache holds of whatever a call wrote |
| CompauditCache.CallTwice | src/core/compaudit_cache.c:600-682 | of two calls in a row at rest the second keeps what the first left |
| CompauditCache.AuditedEntries | src/core/compaudit_cache.c:551-578 | every written entry is of a listed path that exists, carries its own audit, and has the verdict that its flags and fields give |
| FpathIndex.Verify | src/core/fpath.c:106-200 | the verification loop decides exactly whether the header section is that of the current fpath |
| FpathIndex.Shell.ScanDirectory | src/core/fpath.c:263-293 | one directory's function lines, or its stubs |
| FpathIndex.Shell.ScanAll | src/core/fpath.c:258-296 | all lines in order; with --preload no lines and the first directory wins a name |
| FpathIndex.Shell.WriteHeader | src/core/fpath.c:240-256 | the title and one line per directory, -1 for a missing one |
| FpathIndex.Shell.CmdFpathIndex | src/core/fpath.c:106-304 | an index that agrees is left alone, any other is replaced; the stubs are the same either way |
| FpathIndex.HeaderThenLines | src/core/fpath.c:246-256 | the header written line by line is the one that is verified from its front |
| FpathIndex.HeaderIsWritten | src/core/fpath.c:240-256 | the header to the letter, with what stat says of each directory |
| FpathIndex.NameLinesOne | src/core/fpath.c:263-293 | a line for every name that is not hidden and does not begin with an underscore |
| FpathIndex.NameLinesAppend | src/core/fpath.c:263-293 | in the order in which they are listed |
| FpathIndex.FunctionsOne | src/core/fpath.c:258-296 | for every directory that can be opened |
| FpathIndex.FunctionsAppend | src/core/fpath.c:258-296 | in the order of the fpath |
| FpathIndex.NameStubsAre | src/core/fpath.c:276-294 | one directory adds stubs for its functions and changes none |
| FpathIndex.StubsAre | src/core/fpath.c:258-296 | with --preload a function gets its stub from the first directory that offers it |
| FpathScan.ScanAppend | src/core/fpath.c:141-143 | sscanf finds a word as before when something that begins with white space follows |
| FpathScan.HeaderReads | src/core/fpath.c:141-146 | what sscanf reads from the header line of any directory |
| FpathScan.TwoWords | src/core/fpath.c:141-143 | a name of two words is read as the first, with the second for the mtime |
| FpathScan.PaddedName | src/core/fpath.c:141-143 | white space around a name is not read |
| FpathSkip.DirLinesAgree | src/core/fpath.c:128-187 | written header lines agree with another fpath exactly when each directory reads as the one there now |
| FpathSkip.SkipIffReadsAs | src/core/fpath.c:106-204 | for names of one line, an index is kept exactly when the directories that were written read, one by one, as those of now, and its function lines do not begin like a header line, or agree with directories that are new |
| FpathSkip.SkipIffUnchanged | src/core/fpath.c:106-204 | for names without white space, an index is kept exactly when the ordered list of directories and mtimes is unchanged, or, when a function line begins like a header line, when that list begins the one of now and the function lines agree with the rest |
| FpathSkip.ChangeNoticed | src/core/fpath.c:160-187 | an index is rebuilt when stat gives another mtime for one of its directories, or one has come or gone |
| FpathSkip.IndexTwice | src/core/fpath.c:106-304 | of two runs the second keeps the index exactly when directories and mtimes are the same, and else writes that of now |
| FpathSkip.FitsIf | src/core/fpath.c:128-187 | names of up to 1998 characters without white space fit |
| FpathSkip.KeptAtOnceIff | src/core/fpath.c:128-165 | a new index is kept exactly when no directory has white space in its name and its function lines do not begin like a header line |
| FpathSkip.TitleIff | src/core/fpath.c:113-165 | only a file that begins with the title is kept, and the title alone is kept exactly for the empty fpath |
| FpathSkip.SkipIsExactIff | src/core/fpath.c:106-204 | an index is kept for the unchanged list and for no other exactly under the same condition |
| FpathSkip.SpacedNameConfusedIff | src/core/fpath.c:141-187 | with or without --preload, the index of a directory of two words is kept for another exactly when that is the first word, the second, up to 23 characters, is a strict decimal equal to its mtime, and no function line begins like a header line |
| FpathSkip.KeptIsCurrentIff | src/core/fpath.c:204-246 | a kept index is byte for byte what the run would have written, for the same directories, exactly when the function lines are the same and do not begin like a header line |
| FpathSkip.KeptIsCurrent | src/core/fpath.c:204-246 | so it is always, when listings change only with mtimes and no function line begins like a header line |
| FpathSkip.SameSecondFunctionMissed | src/core/fpath.c:187-204 | an instance: a function added in the second of the build is missed |
| FpathSkip.PreloadedIndexIsKept | src/core/fpath.c:276-294 | a --preload index is kept too, and is right exactly when there is no function |
| RehashSnapshot.LoadSnapshot | src/core/rehash_diff.c:143-197 | what is loaded from any file, and when loading fails |
| RehashSnapshot.LineIs | src/core/rehash_diff.c:213 | a line to the letter: path, inode and mtime |
| RehashSnapshot.ReadEntry | src/core/rehash_diff.c:166-188 | the strtok_r calls find an entry exactly when the line has three words between its tabs, and then the first is its path and the other two its numbers |
| RehashSnapshot.StrtoulSigned | src/core/rehash_diff.c:176 | a plus sign is read over, and a minus sign negates within 64 bits |
| RehashSnapshot.StrtoulPrinted | src/core/rehash_diff.c:176 | every inode number reads back |
| RehashSnapshot.LineRoundTrip | src/core/rehash_diff.c:213 | a storable line, followed by anything, is read back as its entry |
| RehashSnapshot.SnapshotRoundTrip | src/core/rehash_diff.c:200-217 | loading what was written gives the written entries |
| RehashSnapshot.CutNumeral | src/core/rehash_diff.c:177 | a number that is cut short reads as another one |
| RehashSnapshot.LoadedPath | src/core/rehash_diff.c:158-188 | whatever the file, loaded paths are not empty and have neither tab nor newline |
| RehashSnapshot.StorableIffReadBack | src/core/rehash_diff.c:158-213 | a line is read back as written exactly when its path is free of tab, newline and leading # and it has at most 4096 characters |
| RehashCommand.Shell.Lookup | src/core/rehash_diff.c:273-290 | one current directory is counted once, and its first old entry is marked |
| RehashCommand.Shell.Compare | src/core/rehash_diff.c:265-291 | marks and counters after all current directories |
| RehashCommand.Shell.CountRemoved | src/core/rehash_diff.c:292-298 | counts the unmarked entries |
| RehashCommand.Shell.Write | src/core/rehash_diff.c:200-217 | the snapshot of the directories that stat finds |
| RehashCommand.Shell.Collect | src/core/rehash_diff.c:219-245 | the nonempty elements in order |
| RehashCommand.Shell.RehashDiffCore | src/core/rehash_diff.c:247-361 | the report is the difference to the previous snapshot, which is then replaced; the lists are those of its counters |
| RehashCommand.RunAtRest | src/core/rehash_diff.c:247-302 | of two runs while nothing changes, the second reports everything unchanged, and something removed exactly when a directory is on the path twice |
| RehashCommand.RunTwice | src/core/rehash_diff.c:247-302 | of two runs over changing paths and file systems, the second reports the sizes of the differences between what there was and what there is |
| RehashCommand.FirstRun | src/core/rehash_diff.c:247-302 | without a snapshot everything is added |
| RehashCommand.Shell.ListAdded | src/core/rehash_diff.c:307-326 | the current directories, existing or not, that the snapshot does not know |
| RehashCommand.Shell.ListRemoved | src/core/rehash_diff.c:331-338 | the entries without mark |
| RehashCommand.Shell.ListChanged | src/core/rehash_diff.c:343-354 | the current directories that differ from some entry of theirs |
| RehashCommand.UnknownOne | src/core/rehash_diff.c:307-326 | a directory is listed as added exactly when the snapshot has no entry of it |
| RehashCommand.UnknownAppend | src/core/rehash_diff.c:307-326 | in the order of the path |
| RehashCommand.DifferingOne | src/core/rehash_diff.c:343-354 | a directory is listed as changed exactly when an entry of it has other numbers than it has now |
| RehashCommand.DifferingAppend | src/core/rehash_diff.c:343-354 | in the order of the path |
| RehashCommand.MarkedAre | src/core/rehash_diff.c:273-290 | marked are the first entries of the directories that are found |
| RehashCommand.RemovedAre | src/core/rehash_diff.c:331-338 | listed as removed are the entries whose directory is not found, and second entries |
| RehashCommand.ListsPrinted | src/core/rehash_diff.c:305-356 | a list is printed exactly when its counter is not zero |
| RehashCommand.AddedListIff | src/core/rehash_diff.c:268-327 | the added list is as long as its counter exactly when every directory that is missing is known |
| RehashCommand.ChangedListIff | src/core/rehash_diff.c:268-355 | the changed list is as long as its counter exactly when no directory that differs from some entry of its own is missing or agrees with the first one |
| RehashCommand.MissingListedAsAdded | src/core/rehash_diff.c:307-326 | an instance: a missing directory is listed as added but not counted |
| RehashCommand.MissingListedAsChanged | src/core/rehash_diff.c:343-354 | an instance: a missing directory is listed as changed but not counted so |
| RehashCommand.RemovedListCount | src/core/rehash_diff.c:292-338 | the removed list is always as long as its counter |
| RehashDiff.Accounting | src/core/rehash_diff.c:260-298 | added + changed + unchanged is the number of directories found; removed + changed + unchanged is the old size exactly when no old directory occurs twice now |
| RehashDiff.FoundAppend | src/core/rehash_diff.c:265-272 | the directories that stat finds, in the order of the path and as often |
| RehashDiff.AllStorableIf | src/core/rehash_diff.c:213 | paths of up to 4000 characters without tab or newline and not beginning with # can be stored |
| RehashDiff.PreviousIs | src/core/rehash_diff.c:256-262 | a run remembers what the last one found |
| RehashDiff.DiffOfRuns | src/core/rehash_diff.c:247-302 | over two runs with distinct directories the counters are the sizes of the set differences |
| RehashDiff.SecondRun | src/core/rehash_diff.c:247-302 | a second run on an unchanged file system reports nothing added or changed, and nothing removed exactly when no directory is on the path twice |
| RehashDiff.TwiceOnPath | src/core/rehash_diff.c:268-298 | an instance: the second run with a directory twice on the path reports one as removed |
| ReadArray.RecordsRebuildInput | src/builtins/zpreadarray.c:146-190 | untrimmed, the records put together are the input |
| ReadArray.RecordsEndOnce | src/builtins/zpreadarray.c:163-166 | a record ends with the only delimiter in it |
| ReadArray.TrimmedRecords | src/builtins/zpreadarray.c:164-167 | -t gives the same records without their delimiter |
| ReadArray.StoresAt | src/builtins/zpreadarray.c:116-136 | consecutive elements from the origin hold the records after the skipped ones, as many as -n allows |
| ReadArray.StateIs | src/builtins/zpreadarray.c:146-184 | after any number of characters a loop has assigned exactly the records that end within them |
| ReadArray.LimitHolds | src/builtins/zpreadarray.c:124-125 | once -n is reached nothing more would be assigned |
| ReadArray.WantedIs | src/builtins/zpreadarray.c:116-136 | -s and -n bound what is assigned and nothing else does |
| ReadArray.CallsAre | src/builtins/zpreadarray.c:129 | after every quantum of assignments there is one call |
| ReadArray.EveryNthAt | src/builtins/zpreadarray.c:129-134 | with the element that was assigned last |
| ReadArray.CStringIs | src/builtins/zpreadarray.c:168-170 | a value ends before the first NUL |
| ReadArray.Assign | src/builtins/zpreadarray.c:126-135 | one assignment, and the callback exactly when it is due; a quantum of zero crashes |
| ReadArray.TakeLine | src/builtins/zpreadarray.c:117-135 | one line is skipped, assigned or refused, or its callback test crashes |
| ReadArray.GetlineLoop | src/builtins/zpreadarray.c:115-137 | the getline loop assigns exactly that and calls back after every quantum of it; with a quantum of zero it ends at the first assignment |
| ReadArray.Reserve | src/builtins/zpreadarray.c:152-162 | after growing there is room for a character and the terminator, and nothing is lost |
| ReadArray.EndRecord | src/builtins/zpreadarray.c:163-172 | the value is the record up to its first NUL, with its delimiter unless trimmed |
| ReadArray.DelimLoop | src/builtins/zpreadarray.c:139-190 | the generic loop assigns exactly the delimited records and a last one, calls back for the delimited ones, every store within capacity; with a quantum of zero it ends at the first delimited one |
| ReadArray.AtDelimiter | src/builtins/zpreadarray.c:163-180 | a record ends, and is assigned unless -n has been reached |
| ReadArray.TakeChar | src/builtins/zpreadarray.c:146-184 | one character is skipped, kept, or ends a record, with the buffer as large as it needs to be |
| ReadArray.CallsAgreeIff | src/builtins/zpreadarray.c:129-190 | the callbacks agree exactly when there is no last record without newline, or -s skips it, or -n is reached before it, or its number is no multiple of the quantum |
| ReadArray.ZeroQuantumAgreesIff | src/builtins/zpreadarray.c:129-190 | with a quantum of zero the loops end alike exactly when there is no such record, or one before it is assigned, or neither loop assigns any |
| ReadArray.LoopsDiffer | src/builtins/zpreadarray.c:115-190 | instances: a callback that only one loop makes, and an assignment that only the other makes |
| ReadArray.LoopsAgreeIff | src/builtins/zpreadarray.c:115-190 | on a newline the loops agree exactly when there is no last record without newline, or -s is covered by the newlines just if -n is not negative |
| ReadFile.ReadLoop | src/core/fs.c:475-510 | under any short reads the buffer holds exactly the bytes delivered, every read is offered room, and capacity stays above size |
| ReadFile.SplitBuffer | src/core/fs.c:529-556 | the loop gives the records of the split |
| ReadFile.AheadIsSplit | src/core/fs.c:535-549 | from any position, what the loop still appends is the split of the rest |
| ReadFile.SplitIsCanonical | src/core/fs.c:535-556 | separators put back rebuild the buffer; records are free of the delimiter; CR LF is taken greedily |
| ReadFile.SeparatorIs | src/core/fs.c:535-549 | CR LF is one separator exactly when the delimiter is CR |
| ReadFile.CanonicalSplitUnique | src/core/fs.c:535-556 | there is no other such decomposition |
| ReadFile.ReadFileCore | src/core/fs.c:438-567 | the parameter holds what was mapped or, failing that, read, or its records, whatever fstat said of the size, and the buffer is unmapped exactly when it was mapped |
| SourceHot.AcceptReadsBack | src/core/source_hot.c:109-122 | a history line is accepted as its record, unless a positive threshold excludes it |
| SourceHot.AcceptIff | src/core/source_hot.c:109-122 | a line is accepted exactly when it has two words, the second a strict decimal that the threshold allows |
| SourceHot.AddRecord | src/core/source_hot.c:124-138 | one record goes to its script, or to a new one, in place |
| SourceHot.AggregateHistory | src/core/source_hot.c:105-140 | the table in place is the aggregate of the accepted records and never outgrows the history |
| SourceHot.AggregateGroups | src/core/source_hot.c:124-138 | one script for every distinct path, with the sum and the number of its records |
| SourceHot.GroupByIff | src/core/source_hot.c:124-138 | what grouping means for the scripts and the records |
| SourceHot.TotalsOfOne | src/core/source_hot.c:124-138 | the sum and the number of the records of a path, record by record |
| SourceHot.AggregateConserves | src/core/source_hot.c:124-138 | totals and counts add up to those of the records |
| SourceHot.TotalsFit | src/core/source_hot.c:127 | no total leaves a long when the magnitudes add up within one |
| SourceHot.ComparatorIff | src/core/source_hot.c:24-29 | the comparator orders two scripts rightly exactly when the cut difference keeps its sign |
| SourceHot.InOrderIsDescending | src/core/source_hot.c:142 | when all signs survive, sorted means descending totals |
| SourceHot.WrongOrderIff | src/core/source_hot.c:24-29 | the slower of two scripts may come last exactly when the sign is lost |
| SourceHot.DescendingIffHonest | src/core/source_hot.c:24-142 | every result that qsort may leave is descending exactly when no difference of the table loses its sign |
| SourceHot.Qsort | src/core/source_hot.c:142 | any result that section 7.20.5 of ISO C99 allows: a permutation, ordered when the comparator is consistent on the table |
| SourceHot.SourceHot | src/core/source_hot.c:100-157 | the commands are those of the first `limit` scripts of such a ranking; when no difference loses its sign, each has a total at least that of every script left out |

## Left out

- SourceProfile.Restores: SHIN after a compiled script is what the script made of it, as in the code.
- SourceProfile.Shell.RecordSource: does not model the table's file name field or its allocation apart from one failure flag.
- SourceProfile.Shell.CustomSource: depth and source level are unbounded integers; a null script name is not modelled.
- SourceReport.SourceStudyJson: does not model failing writes to stdout, nor the human-readable table.
- BundlePublish.Build: assumes that the source tree does not change during the build; a file found changed is one of the faults.
- BundlePublish.Publish: a temporary file may remain, exactly when unlink fails.
- CompauditCache.CompauditCore: does not model the --show and JSON output of the entries.
- ReadArray.DelimLoop: the callback is its arguments and not what it does; element numbers are unbounded integers; the division by zero of a quantum of zero is taken to end the process.
- ReadArray.GetlineLoop: the same.
- ReadFile.SplitBuffer: record lengths are unbounded; the code casts them to int.
- SourceHot.SourceHot: sums are unbounded; SourceHot.TotalsFit says when the code's longs do not overflow. The options before the history are not modelled.
- FpathSkip.SkipIffUnchanged: for header lines within the 2047-character buffer and directory names without white space; FpathSkip.SkipIffReadsAs admits white space other than newlines.
- FpathSkip.SkipIffReadsAs: for header lines within the 2047-character buffer, like the other lemmas on keeping an index.
- BundleRuns.FreshSiteIsCurrent: one file changes at a time; moving a whole directory is not one step.
- CompauditCache.Store.Write: a failed open leaves the file as it was; `zp_fopen_write_nofollow` (src/core/utils.c:35-65) may have created or truncated it before `fchmod`, `ftruncate` or `fdopen` fails.
- RehashCommand.Shell.RehashDiffCore: the same of the snapshot file.
- BundleFreshness.HonestIffSafe: for sources that deliver their size; a file found changed during a build is a fault of that build.
- Json.ValueRoundTrip: no white space, escapes, fractions or exponents, which the report never has.
- FpathIndex.Shell.CmdFpathIndex: models --out with a file that opens; writing to stdout adds nothing.
- Text.StrTok: one delimiter character, which is all the code uses.
- `fgets`, `strtok_r` and the loaders on file contents with NUL bytes.
- Running out of memory in `compaudit_cache.c`, `rehash_diff.c`, `fpath.c`, `fs.c` and `zpreadarray.c`.
- Changes to the audited directories, the fpath or the path by others in the middle of one call.
- The 256-byte limit on `name[index]` in `fs.c` and `zpreadarray.c`.
- Mapped dumps and word code (src/core/source.c:335-575): a dump is a table from names to compiled texts, or cannot be loaded.
- `zcompile`, `execode`, `loop` and the shell's hash tables: an outcome the environment picks, or a map.
- The unused 64-entry directory cache, `zp_pathstat_core`, `zp_dirlist_core` and path warm-up in `fs.c`: thin or never called.
- Cache directory discovery, argument dispatch, usage text, icons and warnings.
