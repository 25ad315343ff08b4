# storm-extract search, filter and extract pipeline in Dafny

This project models the core of storm-extract, a tool that lists and
extracts files from the CASC archives of Heroes of the Storm. It comes as two
near-duplicate programs:

- `src/storm-extract.cpp` has `searchArchive`, `extractFile` and a `main` that
  always keeps the archive hierarchy.
- `src/storm-extract-cli.cpp` has the scan inline in `main`. It adds flatten,
  lower-case and directory-listing modes.

The archive library (CascLib) becomes an abstract entry stream: a `Listing`
holds the first-find result and the successive find-next results. Each
entry's contents become a list of read buffers. The local filesystem becomes
an `Fs` value: the existing directories, the written files, and the `mkdir`
and `fopen` calls the system refuses.

Modules, leaves first:

- `Wrappers`: `Option`.
- `Strings`: `std::string::find`, `find_last_of`, `compare` and ASCII `tolower`.
- `Matching`: `hasExtension`, the match predicate, and the indices of the
  accepted entries.
- `Scanning`: the enumeration do-while loop, `searchArchive`, the CLI scan
  with its directory mode, and the sorted printing of the directory set.
- `FileSystem` and `Paths`: the `\` to `/` rewrite loop, the directory chain,
  and the `opendir`/`mkdir` loop.
- `Extraction`: the buffer copy loop, `extractFile`, and one iteration of the
  CLI extraction loop.
- `Programs`: both `main` functions, with exit codes, counters and progress
  percentages.
- `Scenarios`: the worked destination examples.

Where the two programs differ, the model follows each program's code:

- `storm-extract.cpp` counts an entry as done only when `extractFile`
  returns a positive number of `fwrite` items. So an entry with zero bytes is
  never counted, even when it was extracted correctly.
- `storm-extract-cli.cpp` counts every entry the archive opens, even when the
  destination cannot be opened.
- The CLI reports its progress after the increment. With more than 100
  matches, the first counted entry therefore reads as 0%. The proved bound is
  0 to 100, and the value is 100 exactly when every match has been counted.
  The lower bound is 0, not 1.
- A null first-find handle behaves differently in the two programs:
  - `storm-extract.cpp` returns an empty result and exits with 0;
  - the CLI exits with -3.

## Model

| member | source | states |
|---|---|---|
| Strings.Find | src/storm-extract.cpp:244 | `find` returns the first index at or after the start where the pattern occurs, and `npos` only when it occurs nowhere after the start |
| Strings.ContainsIff | src/storm-extract.cpp:244 | `find(p) != npos` holds exactly when `p` occurs somewhere; the empty pattern is found in every string |
| Strings.FindChar | src/storm-extract.cpp:296-300 | a one-character `find` returns the first index holding the character, and none of the earlier indices holds it |
| Strings.LastIndexOf | src/storm-extract.cpp:303 | `find_last_of("/")` returns the last `/`; no `/` follows it, and `npos` means the string has no `/` |
| Strings.Compare | src/storm-extract-cli.cpp:286 | the `std::string` order used by `std::set`: the sign of a lexicographic comparison by character code |
| Strings.CompareZero | src/storm-extract-cli.cpp:169 | `compare(...) == 0` holds exactly when the two strings are equal |
| Strings.CompareTransitive | src/storm-extract-cli.cpp:286 | the set order is transitive, so the directory set has a well-defined ascending order |
| Strings.Lower | src/storm-extract-cli.cpp:380-382 | ASCII lower-casing keeps the length, leaves no upper-case letter, and changes only `A`..`Z`, each by +32 |
| Matching.HasExtension | src/storm-extract.cpp:194-202 | true exactly when the name is strictly longer than the extension and ends with it; never true when the extension is as long as the name (the name itself included); an empty extension matches exactly the non-empty names. The CLI copy at src/storm-extract-cli.cpp:163-171 is identical |
| Matching.Accepts | src/storm-extract.cpp:244-255 | the match predicate exactly as both programs write it (the CLI copy is src/storm-extract-cli.cpp:325-336): the full-path substring gate, then the four-way disjunction over `bPattern` and `bFileExt`. It has no contract of its own; its meaning is stated by Matching.AcceptsIsConjunction |
| Matching.AcceptsIsConjunction | src/storm-extract.cpp:244-255 | the four-way disjunction equals three filters joined by AND: path contains the search pattern; `bPattern` implies the plain name contains the file pattern; `bFileExt` implies the extension test. The CLI copy at src/storm-extract-cli.cpp:325-336 is identical |
| Matching.AcceptsWithoutNameFilters | src/storm-extract.cpp:247 | with neither name filter, acceptance is exactly "the full path contains the search pattern" |
| Matching.MatchIndices | src/storm-extract.cpp:236-268 | the accepted positions, strictly increasing (so in enumeration order); every one is accepted and every accepted position is listed |
| Matching.Matched | src/storm-extract-cli.cpp:339-345 | the entries the scan keeps, built as the loop builds them. It has no contract of its own; Matching.MatchedFilter, Matching.MatchedAtIndices and Matching.MatchedStep state what it keeps |
| Matching.MatchedStep | src/storm-extract.cpp:259 | visiting one more entry appends it to the matches exactly when the predicate accepts it, and leaves the earlier matches as they were |
| Matching.MatchedFilter | src/storm-extract-cli.cpp:339-345 | every kept entry is accepted, and each entry is kept exactly as many times as it was enumerated when it is accepted, and never otherwise. Duplicates are not removed |
| Matching.MatchedAtIndices | src/storm-extract.cpp:236-268 | the k-th kept entry is the entry at the k-th accepted position, so the matches keep their enumeration order |
| Matching.MatchedSound | src/storm-extract.cpp:259 | every kept entry was enumerated and passes the predicate, so its full path contains the search pattern; every accepted entry is kept |
| Matching.ScenarioExtensionOnly | src/storm-extract.cpp:249 | with extension `wav` and the default pattern `/`, of `a/b/x.wav` and `a/b/x.ogg` only the first is accepted |
| Scanning.Successes | src/storm-extract.cpp:269 | enumeration continues while find-next succeeds with a plain name, and stops at the first failure |
| Scanning.Enumerated | src/storm-extract.cpp:233-272 | a null first-find handle yields no entries; otherwise the first entry is always visited, followed by the successful find-next results up to the first failure |
| Scanning.NextEntry | src/storm-extract.cpp:269 | the do-while condition: there is a next entry exactly when the enumeration has one more, and it is that entry |
| Scanning.MatchedPathsContainPattern | src/storm-extract.cpp:244-259 | every path the scan keeps contains the search pattern |
| Scanning.SearchArchive | src/storm-extract.cpp:224-281 | the do-while loop returns the full paths of the accepted entries, in enumeration order, one per accepted entry; empty for a null handle |
| Scanning.DirectoryOf | src/storm-extract-cli.cpp:338 | the kept prefix of the full path has `plainName.length()` characters removed; when the plain name ends the path, prefix + plain name is the path. A plain name longer than the path keeps the whole path, because the `size_t` subtraction wraps and `substr` clamps |
| Scanning.DirectorySet | src/storm-extract-cli.cpp:337-338 | the directory set the CLI builds in directory mode. It has no contract of its own; Scanning.DirectorySetStep and Scanning.DirectorySetSound state its contents |
| Scanning.DirectorySetStep | src/storm-extract-cli.cpp:337-338 | visiting one more entry adds its directory part exactly when the predicate accepts it |
| Scanning.DirectorySetSound | src/storm-extract-cli.cpp:337-338 | every collected directory is the directory part of some accepted entry |
| Scanning.ScanStep | src/storm-extract-cli.cpp:325-346 | one turn of the scan: in directory mode the set grows by the accepted entry's directory part; otherwise the accepted entry is appended and `filesFound` follows the results |
| Scanning.ScanCli | src/storm-extract-cli.cpp:314-354 | reports whether there was a handle. In directory mode only the directory set grows (`filesFound` 0, no results). Otherwise the results are the accepted entries in order and `filesFound` equals their number |
| Scanning.Least | src/storm-extract-cli.cpp:358 | picks the element of a non-empty set that is smaller than every other element |
| Scanning.SortedListing | src/storm-extract-cli.cpp:357-361 | the directory set is printed in strictly ascending order, each element once, with nothing added or lost |
| Paths.SwapSeparatorsFixedPoint | src/storm-extract.cpp:294-301 | a path without `\` is left unchanged, so rewriting twice is the same as rewriting once |
| Paths.RewriteSeparators | src/storm-extract.cpp:296-301 | the find-and-splice loop ends, because each pass removes one `\`. Its result maps every `\` to `/` and leaves everything else, at the same length |
| Paths.DirChain | src/storm-extract.cpp:303-320 | the directories the probing loop visits, one per `/` of the destination. It has no contract of its own; Paths.DirChainShape and Paths.DirChainComplete state both directions |
| Paths.DirChainShape | src/storm-extract.cpp:303-321 | each probed directory is a prefix of the destination followed by a `/` there, so the final file name is never probed; shallowest first |
| Paths.DirChainComplete | src/storm-extract.cpp:308-319 | every `/` of the destination contributes the prefix in front of it |
| Paths.DirChainLeadingSlash | src/storm-extract.cpp:308-311 | a destination starting with `/` probes the empty path first |
| Paths.DirChainNoSlash | src/storm-extract.cpp:319 | a stretch without `/` adds nothing to the chain |
| Paths.MissingMembers | src/storm-extract.cpp:313-315 | `mkdir` is called for exactly the chain directories that do not exist yet |
| Paths.CreatedMembers | src/storm-extract.cpp:315 | the directories added are exactly the chain directories whose `mkdir` is not refused |
| Paths.ProbeChain | src/storm-extract.cpp:308-320 | the probing loop adds every chain directory whose `mkdir` is not refused, calls `mkdir` only for missing ones in chain order, and merely opens and closes existing ones |
| Paths.CreateDirectories | src/storm-extract.cpp:303-321 | the chain is cut after the last `/`, then probed. The directories added are exactly the chain directories `mkdir` does not refuse, and `mkdir` is called for exactly the missing ones, in chain order. When the whole chain already exists, nothing changes and no `mkdir` is called |
| Paths.RealiseTwice | src/storm-extract.cpp:303-321 | realising the chain a second time adds no directory, whatever `mkdir` refused the first time; `mkdir` is called again only for the directories that were missing and refused |
| Paths.RealisedChainIsStable | src/storm-extract.cpp:313-317 | once every chain directory exists, a second realisation adds nothing and calls no `mkdir` |
| Extraction.ItemsOf | src/storm-extract.cpp:342 | the items one `fwrite(&buffer, read, 1, dest)` reports: 1 for a non-empty buffer, 0 for an empty one. It has no contract of its own; Extraction.CopyChunks states the total over the buffers written, and Extraction.ExtractFile the value `extractFile` returns |
| Extraction.Copied | src/storm-extract.cpp:340-344 | the buffers written are the reads before the first empty one, each non-empty |
| Extraction.CopyChunks | src/storm-extract.cpp:340-344 | the loop writes exactly the concatenation of those buffers. It returns one `fwrite` item per buffer, not a byte count, so 0 means exactly that nothing was written |
| Extraction.Split | src/storm-extract.cpp:341 | reading `size` bytes at a time yields buffers of 1 to `size` bytes |
| Extraction.CopyRoundTrip | src/storm-extract.cpp:340-344 | for any buffer size of at least 1, the bytes written are exactly the entry's bytes |
| Extraction.Delivered | src/storm-extract.cpp:334-352 | the bytes a destination receives from one archive path: none when `CascOpenFile` fails or `fopen` refuses the destination, otherwise the bytes the copy loop writes. The CLI's open-and-copy at src/storm-extract-cli.cpp:424-440 is the same. It has no contract of its own; Extraction.ExtractFile, Extraction.ExtractEntryCli, Extraction.FilesAfterLastWrite and Programs.ExtractNext state its use |
| Extraction.ExtractFile | src/storm-extract.cpp:283-361 | the destination is `destination + fullPath` with `\` rewritten, and its directory chain is created even when the entry then fails to open. The result is 0 when the archive entry or the destination cannot be opened, and otherwise the number of buffers. The file receives exactly the entry's bytes |
| Extraction.ArchivePath | src/storm-extract-cli.cpp:380-382 | the archive path that `CascOpenFile` receives at src/storm-extract-cli.cpp:424: lower-cased in place in full-path lower-case mode, the stored path otherwise. It has no contract of its own; Programs.OpenedCount and Extraction.ExtractEntryCli state its use |
| Extraction.CliDestination | src/storm-extract-cli.cpp:378-420 | full-path mode gives a root-length + path-length destination with no `\`. Flatten mode gives root + plain name, lower-cased on request with no upper-case letter after the root |
| Extraction.ExtractEntryCli | src/storm-extract-cli.cpp:376-446 | in full-path mode the stored path is lower-cased in place on request (380-382), the destination's separators are rewritten (386-391) and its directory chain is created (393-411); only then is the archive opened, under the possibly lower-cased path (424). The chain is created whatever that open returns. Flatten mode opens the original path and creates no directory. The destination receives the entry's bytes exactly when both opens succeed. The reported success is the archive open alone |
| Extraction.ChainDirs | src/storm-extract.cpp:303-320 | the directories on the chains of a list of extractions' destinations. It has no contract of its own; Extraction.ChainDirsMembers states its members and Extraction.Outcome its use |
| Extraction.ChainDirsMembers | src/storm-extract.cpp:303-320 | a directory is on the combined chain exactly when it is on the chain of some extraction's destination, whatever the order of the extractions |
| Extraction.ChainDirsStep | src/storm-extract.cpp:313-315 | realising one more destination's chain on a filesystem that already holds every earlier chain directory `mkdir` did not refuse keeps that description |
| Extraction.FilesAfter | src/storm-extract.cpp:334-352 | the files after a sequence of extractions, each delivering to its destination in turn. It has no contract of its own; Extraction.FilesAfterUntouched and Extraction.FilesAfterLastWrite state its contents |
| Extraction.FilesAfterUntouched | src/storm-extract.cpp:337 | a path that no extraction writes to keeps its presence and its bytes |
| Extraction.FilesAfterLastWrite | src/storm-extract.cpp:337-344 | a destination holds the bytes of the last extraction that delivered to it; `fopen(..., "wb")` truncates, so later results overwrite earlier ones |
| Extraction.Outcome | src/storm-extract.cpp:303-352 | the filesystem after a sequence of extractions: when they create directories, every chain directory `mkdir` does not refuse is added, and the files are those the deliveries leave. Extraction.OutcomeKeepsDirs states that directories only grow and that flatten mode adds none |
| Extraction.OutcomeKeepsDirs | src/storm-extract.cpp:303-320 | a sequence of extractions never removes a directory, adds none when it creates no directories, and leaves the refusals of `mkdir` and `fopen` alone |
| Scenarios.FlattenLowerScenario | src/storm-extract-cli.cpp:413-420 | `Data/Sound/Hero.OGG`, flattened and lower-cased under `out/`, goes to `out/hero.ogg` |
| Scenarios.FullPathScenario | src/storm-extract-cli.cpp:384-391 | `Data\Sound\Hero.ogg` under `out/` goes to `out/Data/Sound/Hero.ogg` |
| Scenarios.FullPathChainScenario | src/storm-extract-cli.cpp:393-411 | for `out/Data/Sound/Hero.ogg` the probed directories are `out`, `out/Data`, `out/Data/Sound` |
| Programs.StripTrailingSeparator | src/storm-extract-cli.cpp:291-293 | exactly one trailing `/` or `\` is removed, and only if present |
| Programs.WithTrailingSlash | src/storm-extract-cli.cpp:370-371 | the output root ends with `/`; a `/` is appended only when missing, and the original is kept as a prefix |
| Programs.WithTrailingSlashIdempotent | src/storm-extract.cpp:491-492 | normalising the output root twice is the same as once |
| Programs.Percent | src/storm-extract.cpp:497 | the progress value `filesDone * 100 / filesFound`, the same expression as src/storm-extract-cli.cpp:442. It has no contract of its own; Programs.PercentBounds states its range |
| Programs.PercentBounds | src/storm-extract-cli.cpp:442 | `filesDone * 100 / filesFound` lies in [0, 100], and is 100 exactly when `filesDone == filesFound` |
| Programs.Extracted | src/storm-extract.cpp:500 | the first program counts a result as done when `extractFile` returns a positive item count, that is when both opens succeed and at least one non-empty buffer is written. It has no contract of its own; Programs.ExtractNext and Programs.CountNext state its use |
| Programs.ExtractedCount | src/storm-extract.cpp:499-502 | the number of entries the first program counts as done never exceeds the number of results |
| Programs.StormJobs | src/storm-extract.cpp:285-301 | each result is opened under its own path and written to the output root joined with it, with `\` rewritten to `/`. It has no contract of its own; Programs.ExtractAll states its use |
| Programs.ExtractAll | src/storm-extract.cpp:494-504 | `filesDone` is the number of results with items written, at most `filesFound`. One progress value is reported per result, before its extraction, equal to done-so-far * 100 / `filesFound`, and so in [0, 99]. The final filesystem is exactly the outcome of extracting every result in order: every chain directory `mkdir` does not refuse is added, and each destination holds the bytes of its last delivery |
| Programs.ExtractNext | src/storm-extract.cpp:499-500 | one extraction moves the filesystem from the outcome of the earlier results to the outcome including this one, and writes items exactly when the result counts as extracted |
| Programs.CountNext | src/storm-extract.cpp:500-502 | `filesDone` grows by one exactly for a result that counts as extracted |
| Programs.ProgressNext | src/storm-extract.cpp:497-498 | the progress printed before a result's extraction is the number of earlier results extracted, times 100, divided by `filesFound` |
| Programs.StormFsStep | src/storm-extract.cpp:283-352 | one `extractFile` call on the outcome of the earlier results gives the outcome including this one |
| Programs.ProgressBeforeBounds | src/storm-extract.cpp:497 | progress reported before each extraction counts only earlier results, so it lies in [0, 99] |
| Programs.RunStormExtract | src/storm-extract.cpp:448-513 | exits -2 when the stripped source does not open as a storage. Extraction runs only with `-x` and a non-empty result list. An empty destination terminates on the exception from `at`. Otherwise the run exits 0 with `filesFound` equal to the number of results and `filesDone` at most that. After an extraction the filesystem is exactly the outcome of extracting every result under the slash-terminated destination; without one it is unchanged |
| Programs.OpenedCount | src/storm-extract-cli.cpp:424-441 | the number of results the CLI counts, one per archive open, never exceeds the number of results |
| Programs.CliJobs | src/storm-extract-cli.cpp:376-424 | each result is opened under its archive path and written to its CLI destination. It has no contract of its own; Programs.ExtractAllCli states its use |
| Programs.ExtractAllCli | src/storm-extract-cli.cpp:373-451 | `filesDone` counts the results whose archive entry opens, even when the destination cannot be opened. The k-th reported progress is (k+1) * 100 / `filesFound`, in [0, 100], and 100 only for the last result. The final filesystem is exactly the outcome of extracting every result in order: in full-path mode every chain directory `mkdir` does not refuse is added, flatten mode adds none, and each destination holds the bytes of its last delivery |
| Programs.CliFsStep | src/storm-extract-cli.cpp:376-440 | one turn of the CLI loop on the outcome of the earlier results gives the outcome including this one; only full-path mode creates directories |
| Programs.ExtractNextCli | src/storm-extract-cli.cpp:376-440 | one turn's extraction moves the filesystem to the outcome including this result, and reports the archive open alone |
| Programs.CountNextCli | src/storm-extract-cli.cpp:441-443 | an opened entry adds one to `filesDone`, and the progress printed after the increment is appended |
| Programs.CliProgressBounds | src/storm-extract-cli.cpp:441-443 | progress printed after each increment of `filesDone` stays in [0, 100], and reaches 100 exactly at the last of the `filesFound` results |
| Programs.RunCli | src/storm-extract-cli.cpp:291-457 | exits -2 when the storage does not open and -3 without a find handle. Directory mode prints exactly the directory set in ascending order and skips extraction. Otherwise `filesFound` is the number of results and `filesDone` the number of archive opens, at most `filesFound`. After an extraction one progress value is reported per counted entry, the k-th being (k+1) * 100 / `filesFound`, and the filesystem is exactly the outcome of extracting every result in the chosen mode. Without an extraction no progress is reported and the filesystem is unchanged |

## Left out

- Command-line parsing with SimpleOpt and the -1 exit for an invalid argument. A run receives its options already parsed.
- `showUsage`, `echo`, `verbose`, `printCount` and `printProgress`. They are terminal output; the model keeps only the values they print (counters, progress, directory listing).
- The Node bindings in src/storm-extract.cpp and `index.js`. They are thin wrappers with no logic of their own.
- CascLib itself (storage opening, enumeration, entry reads). These are foreign calls, represented by a map of storages, a `Listing` and per-entry buffer lists.
- A failing `CascReadFile`. Every read is taken to succeed. In the source a failed first read leaves `read` uninitialised.
- A failing or short `fwrite`. Writes are taken to succeed.
- Why `mkdir` and `fopen` fail (errno, permissions, a missing parent). These are parameters of `Fs` (`cannotCreate`, `cannotOpen`) rather than derived from the directory tree.
- The 1 MB and 1 000 000 byte stack buffers. The buffer size is a parameter of `Split`, and any size of at least one byte gives the same file.
- The archive handle that `extractFile` leaves open when the destination cannot be opened. Handles are not modelled.
- Locale-dependent `::tolower`. Only ASCII `A`..`Z` are lower-cased.
- Byte strings. The source's `std::string` and `char*` values are byte sequences, and the model's `string` is a sequence of characters. Lengths therefore count characters, not bytes. This shows only in Scanning.DirectoryOf, and only when the plain name does not end the full path: both branches then subtract a character count where the source subtracts a byte count. CascLib always gives a plain name that ends the full path, so this does not arise in practice.
- Path normalisation. Directories and files are identified by their exact spelling, and paths are compared as strings. The filesystem treats `a//b` and `a/b`, a trailing `/`, `.` and `..` segments, and (on a case-insensitive volume) names differing only in case as the same entry. Paths.MissingMembers, Paths.ProbeChain, Paths.CreateDirectories, Extraction.FilesAfterUntouched and Extraction.FilesAfterLastWrite therefore describe the real filesystem only when distinct strings name distinct entries. For example, for `out//a/` the model probes `out/` as a directory of its own and calls `mkdir` for it, while `opendir("out/")` finds `out`.
- Writes outside the output root. An archive path with a `..` segment, such as `..\x` under `out/`, makes the source write `out/../x`, which is `x` outside the root. The model records that write under the string `out/../x`, so it says nothing about what it does to `x`.
- Programs.PercentBounds: does not model overflow of the `int` product `filesDone * 100`. That product only wraps beyond about 21 million matches.
- Programs.StripTrailingSeparator: an empty storage path is returned unchanged. The source indexes `strSource[size() - 1]` there, which is undefined behaviour.
