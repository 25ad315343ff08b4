/** The two command-line programs around the core: `main` of
    src/storm-extract.cpp (hierarchy always kept, `filesDone` counts entries
    with at least one item written) and `main` of src/storm-extract-cli.cpp
    (flatten and lower-case modes, directory listing, `filesDone` counts
    entries the archive opened). Option parsing is not modelled: a run
    receives its options already parsed. */
module Programs {
  import opened Wrappers
  import opened Strings
  import opened FileSystem
  import opened Matching
  import opened Scanning
  import opened Paths
  import opened Extraction

  /** A storage as the backend presents it: its enumeration and the
      readable contents of its entries. */
  datatype Storage = Storage(listing: Listing, contents: Contents)

  /** The parsed command line (`-i`, `-o`, the search criteria, `-x`, `-p`,
      `-c`, `-d`). The first program has no lower-case and no directory
      option and always keeps the full path. */
  datatype Options = Options(
    source: string,
    destination: string,
    criteria: Criteria,
    extract: bool,
    useFullPath: bool,
    lowerCase: bool,
    directories: bool)

  /** How a run ends: an exit code with the two counters, the progress
      percentages reported, the directory listing printed and the resulting
      filesystem; or termination by the `std::out_of_range` that
      `strDestination.at(size() - 1)` throws on an empty destination. */
  datatype Run =
    | Exit(code: int, found: nat, done: nat, progress: seq<int>, listing: seq<string>, fs: Fs)
    | Terminated

  function IsSeparator(ch: char): bool
  {
    ch == '/' || ch == '\\'
  }

  /** The storage path with one trailing `/` or `\` removed, since the
      archive library rejects it. */
  function StripTrailingSeparator(s: string): (r: string)
    ensures |r| <= |s| && r == s[..|r|]
    ensures r == s <==> s == [] || !IsSeparator(s[|s| - 1])
    ensures r != s ==> |r| == |s| - 1
  {
    if s != [] && IsSeparator(s[|s| - 1]) then s[..|s| - 1] else s
  }

  /** The output root with a `/` appended only when it does not already end
      with one. The source reads the last character with `at`, so the empty
      destination is excluded here and handled by the callers. */
  function WithTrailingSlash(d: string): (r: string)
    requires d != []
    ensures |r| > 0 && r[|r| - 1] == '/'
    ensures |d| <= |r| <= |d| + 1 && r[..|d|] == d
    ensures r == d <==> d[|d| - 1] == '/'
  {
    if d[|d| - 1] != '/' then d + "/" else d
  }

  /** Normalising the output root twice is the same as once. */
  lemma WithTrailingSlashIdempotent(d: string)
    requires d != []
    ensures WithTrailingSlash(WithTrailingSlash(d)) == WithTrailingSlash(d)
  {
  }

  /** The progress percentage, `filesDone * 100 / filesFound` on
      non-negative `int`s, where truncating and Euclidean division agree. */
  function Percent(done: nat, found: nat): int
    requires found > 0
  {
    done * 100 / found
  }

  lemma {:induction false} MulMonotone(a: int, b: int, c: nat)
    requires a <= b
    ensures a * c <= b * c
    decreases c
  {
    if c > 0 {
      MulMonotone(a, b, c - 1);
      assert a * c == a * (c - 1) + a;
      assert b * c == b * (c - 1) + b;
    }
  }

  lemma MulCancel(a: int, b: int, c: nat)
    requires c > 0
    ensures a * c < b * c ==> a < b
  {
    if a >= b {
      MulMonotone(b, a, c);
    }
  }

  /** While fewer entries are done than were found the percentage lies in
      [0, 99]; it reaches 100 exactly when all of them are done. With more
      than 100 entries found, one done entry still reads as 0%. */
  lemma PercentBounds(done: nat, found: nat)
    requires found > 0 && done <= found
    ensures 0 <= Percent(done, found) <= 100
    ensures Percent(done, found) == 100 <==> done == found
  {
    var q := done * 100 / found;
    var r := done * 100 % found;
    assert q * found + r == done * 100 && 0 <= r < found;
    MulCancel(-1, q, found);
    MulCancel(q, 101, found);
    MulCancel(q, 100, found);
    MulCancel(99, q, found);
  }

  /** The first program counts an entry as done when `extractFile` reports
      at least one item written. */
  predicate Extracted(path: string, root: string, contents: Contents, fs: Fs)
  {
    var dest := SwapSeparators(root + path);
    var d := Delivered(path, dest, contents, fs);
    d.Some? && d.value != []
  }

  /** How many of `paths` the first program counts as done. */
  function ExtractedCount(paths: seq<string>, root: string, contents: Contents, fs: Fs): (n: nat)
    ensures n <= |paths|
  {
    if paths == [] then 0
    else
      var k := |paths| - 1;
      ExtractedCount(paths[..k], root, contents, fs) + (if Extracted(paths[k], root, contents, fs) then 1 else 0)
  }

  /** The first program's jobs: each result is opened under its own path
      and written to the root joined with it, separators rewritten. */
  function StormJobs(results: seq<string>, root: string): seq<Job>
  {
    if results == [] then []
    else
      var n := |results| - 1;
      StormJobs(results[..n], root) + [Job(results[n], SwapSeparators(root + results[n]))]
  }

  lemma StormJobsStep(results: seq<string>, i: nat, root: string)
    requires i < |results|
    ensures StormJobs(results[..i + 1], root) == StormJobs(results[..i], root) + [Job(results[i], SwapSeparators(root + results[i]))]
  {
    assert results[..i + 1][..i] == results[..i];
  }

  /** The extraction loop of the first program: report progress, extract,
      and count the entry only when items were written. */
  method ExtractAll(results: seq<string>, root: string, contents: Contents, fs: Fs)
    returns (done: nat, progress: seq<int>, fs': Fs)
    requires results != []
    ensures done == ExtractedCount(results, root, contents, fs)
    ensures done <= |results|
    ensures |progress| == |results|
    ensures forall k :: 0 <= k < |results| ==>
      progress[k] == Percent(ExtractedCount(results[..k], root, contents, fs), |results|)
    ensures forall k :: 0 <= k < |progress| ==> 0 <= progress[k] <= 99
    ensures fs' == Outcome(fs, StormJobs(results, root), contents, true)
    ensures fs.dirs <= fs'.dirs
  {
    done, progress, fs' := 0, [], fs;
    var found := |results|;
    assert results[..0] == [];
    OutcomeOfNoJobs(fs, contents, true);
    for i := 0 to |results|
      invariant done == ExtractedCount(results[..i], root, contents, fs)
      invariant |progress| == i
      invariant forall k :: 0 <= k < i ==>
        progress[k] == Percent(ExtractedCount(results[..k], root, contents, fs), found)
      invariant fs' == Outcome(fs, StormJobs(results[..i], root), contents, true)
    {
      progress := ProgressNext(results, i, root, contents, fs, done, progress);
      var written;
      written, fs' := ExtractNext(results, i, root, contents, fs, fs');
      done := CountNext(results, i, root, contents, fs, written, done);
    }
    assert results[..|results|] == results;
    ProgressBeforeBounds(results, root, contents, fs, progress);
    OutcomeKeepsDirs(fs, StormJobs(results, root), contents, true);
  }

  /** The extraction of one turn of the first program's loop: the
      filesystem moves from the outcome of the first `i` results to that of
      the first `i + 1`, and items are written exactly when the result
      counts as extracted. */
  method ExtractNext(results: seq<string>, i: nat, root: string, contents: Contents, fs: Fs, cur: Fs)
    returns (written: nat, cur': Fs)
    requires i < |results|
    requires cur == Outcome(fs, StormJobs(results[..i], root), contents, true)
    ensures written > 0 <==> Extracted(results[i], root, contents, fs)
    ensures cur' == Outcome(fs, StormJobs(results[..i + 1], root), contents, true)
  {
    written, cur' := ExtractFile(results[i], root, contents, cur);
    StormFsStep(results, i, root, contents, fs, cur, cur');
  }

  /** The progress report of one turn of the first program's loop: the
      percentage of the results before this one that were extracted. */
  method ProgressNext(results: seq<string>, i: nat, root: string, contents: Contents, fs: Fs, done: nat, progress: seq<int>)
    returns (progress': seq<int>)
    requires i < |results|
    requires done == ExtractedCount(results[..i], root, contents, fs)
    requires |progress| == i
    requires forall k :: 0 <= k < i ==>
      progress[k] == Percent(ExtractedCount(results[..k], root, contents, fs), |results|)
    ensures |progress'| == i + 1
    ensures forall k :: 0 <= k < i + 1 ==>
      progress'[k] == Percent(ExtractedCount(results[..k], root, contents, fs), |results|)
  {
    progress' := progress + [Percent(done, |results|)];
  }

  /** The count of one turn of the first program's loop. */
  method CountNext(results: seq<string>, i: nat, root: string, contents: Contents, fs: Fs, written: nat, done: nat)
    returns (done': nat)
    requires i < |results|
    requires written > 0 <==> Extracted(results[i], root, contents, fs)
    requires done == ExtractedCount(results[..i], root, contents, fs)
    ensures done' == ExtractedCount(results[..i + 1], root, contents, fs)
  {
    ExtractedCountStep(results, i, root, contents, fs);
    done' := if written > 0 then done + 1 else done;
  }

  /** One turn of the first program's loop keeps the filesystem equal to
      the outcome of the jobs so far. */
  lemma StormFsStep(results: seq<string>, i: nat, root: string, contents: Contents, fs: Fs, before: Fs, after: Fs)
    requires i < |results|
    requires before == Outcome(fs, StormJobs(results[..i], root), contents, true)
    requires var dest := SwapSeparators(root + results[i]);
      after == before.(dirs := before.dirs + Created(DirChain(dest), before),
                       files := Deliver(before.files, dest, Delivered(results[i], dest, contents, before)))
    ensures after == Outcome(fs, StormJobs(results[..i + 1], root), contents, true)
  {
    var j := Job(results[i], SwapSeparators(root + results[i]));
    StormJobsStep(results, i, root);
    ChainDirsStep(fs, before, StormJobs(results[..i], root), j);
    FilesAfterSnoc(fs.files, StormJobs(results[..i], root), j, contents, fs);
  }

  lemma ExtractedCountStep(paths: seq<string>, i: nat, root: string, contents: Contents, fs: Fs)
    requires i < |paths|
    ensures ExtractedCount(paths[..i + 1], root, contents, fs)
      == ExtractedCount(paths[..i], root, contents, fs) + (if Extracted(paths[i], root, contents, fs) then 1 else 0)
  {
    assert paths[..i + 1][..i] == paths[..i];
  }

  /** Progress reported before each extraction counts only earlier
      results, so it never reaches 100. */
  lemma ProgressBeforeBounds(results: seq<string>, root: string, contents: Contents, fs: Fs, progress: seq<int>)
    requires |progress| == |results| > 0
    requires forall k :: 0 <= k < |results| ==>
      progress[k] == Percent(ExtractedCount(results[..k], root, contents, fs), |results|)
    ensures forall k :: 0 <= k < |progress| ==> 0 <= progress[k] <= 99
  {
    forall k | 0 <= k < |progress|
      ensures 0 <= progress[k] <= 99
    {
      var n := ExtractedCount(results[..k], root, contents, fs);
      PercentBounds(n, |results|);
    }
  }

  /** `main` of src/storm-extract.cpp. A null find handle is not an error
      here: the search simply finds nothing and the run exits with 0. */
  method RunStormExtract(o: Options, storages: map<string, Storage>, fs: Fs) returns (run: Run)
    ensures StripTrailingSeparator(o.source) !in storages ==> run == Exit(-2, 0, 0, [], [], fs)
    ensures StripTrailingSeparator(o.source) in storages ==>
      var st := storages[StripTrailingSeparator(o.source)];
      var results := FullPaths(Matched(o.criteria, Enumerated(st.listing)));
      && (run.Terminated? <==> o.extract && results != [] && o.destination == [])
      && (run.Exit? ==> run.code == 0 && run.found == |results| && run.listing == [])
      && (run.Exit? && o.extract && results != [] ==>
            run.done == ExtractedCount(results, WithTrailingSlash(o.destination), st.contents, fs)
            && |run.progress| == |results|
            && run.fs == Outcome(fs, StormJobs(results, WithTrailingSlash(o.destination)), st.contents, true))
      && (run.Exit? && !(o.extract && results != []) ==> run.done == 0 && run.progress == [] && run.fs == fs)
    ensures run.Exit? ==> run.done <= run.found
    ensures run.Exit? ==> forall k :: 0 <= k < |run.progress| ==> 0 <= run.progress[k] <= 99
    ensures run.Exit? ==> fs.dirs <= run.fs.dirs
  {
    var source := StripTrailingSeparator(o.source);
    if source !in storages {
      return Exit(-2, 0, 0, [], [], fs);
    }
    var st := storages[source];
    var results := SearchArchive(o.criteria, st.listing);
    var found := |results|;
    if o.extract && results != [] {
      if o.destination == [] {
        return Terminated;
      }
      var root := WithTrailingSlash(o.destination);
      var done, progress, fs' := ExtractAll(results, root, st.contents, fs);
      return Exit(0, found, done, progress, [], fs');
    }
    return Exit(0, found, 0, [], [], fs);
  }

  /** How many of `entries` the CLI counts as done: those the archive opens,
      whatever happens to the destination. */
  function OpenedCount(entries: seq<Entry>, useFullPath: bool, lowerCase: bool, contents: Contents): (n: nat)
    ensures n <= |entries|
  {
    if entries == [] then 0
    else
      var k := |entries| - 1;
      OpenedCount(entries[..k], useFullPath, lowerCase, contents)
        + (if ArchivePath(entries[k], useFullPath, lowerCase) in contents then 1 else 0)
  }

  /** One more result adds one to the count exactly when the archive opens
      it. */
  lemma OpenedCountStep(entries: seq<Entry>, i: nat, useFullPath: bool, lowerCase: bool, contents: Contents)
    requires i < |entries|
    ensures OpenedCount(entries[..i + 1], useFullPath, lowerCase, contents)
      == OpenedCount(entries[..i], useFullPath, lowerCase, contents)
         + (if ArchivePath(entries[i], useFullPath, lowerCase) in contents then 1 else 0)
  {
    assert entries[..i + 1][..i] == entries[..i];
  }

  /** Progress reported after each increment stays within 0..100 and
      reaches 100 exactly at the last entry. */
  lemma CliProgressBounds(progress: seq<int>, found: nat)
    requires 0 < found && |progress| <= found
    requires forall k :: 0 <= k < |progress| ==> progress[k] == Percent(k + 1, found)
    ensures forall k :: 0 <= k < |progress| ==> 0 <= progress[k] <= 100
    ensures forall k :: 0 <= k < |progress| ==> (progress[k] == 100 <==> k + 1 == found)
  {
    forall k | 0 <= k < |progress|
      ensures 0 <= progress[k] <= 100 && (progress[k] == 100 <==> k + 1 == found)
    {
      PercentBounds(k + 1, found);
    }
  }

  /** The CLI's jobs: each result is opened under its archive path and
      written to its CLI destination. */
  function CliJobs(results: seq<Entry>, root: string, useFullPath: bool, lowerCase: bool): seq<Job>
  {
    if results == [] then []
    else
      var n := |results| - 1;
      CliJobs(results[..n], root, useFullPath, lowerCase)
        + [Job(ArchivePath(results[n], useFullPath, lowerCase), CliDestination(results[n], root, useFullPath, lowerCase))]
  }

  lemma CliJobsStep(results: seq<Entry>, i: nat, root: string, useFullPath: bool, lowerCase: bool)
    requires i < |results|
    ensures CliJobs(results[..i + 1], root, useFullPath, lowerCase) == CliJobs(results[..i], root, useFullPath, lowerCase)
      + [Job(ArchivePath(results[i], useFullPath, lowerCase), CliDestination(results[i], root, useFullPath, lowerCase))]
  {
    assert results[..i + 1][..i] == results[..i];
  }

  /** One turn of the CLI's loop keeps the filesystem equal to the outcome
      of the jobs so far; only full-path mode creates directories. */
  lemma CliFsStep(results: seq<Entry>, i: nat, root: string, useFullPath: bool, lowerCase: bool,
                  contents: Contents, fs: Fs, before: Fs, after: Fs)
    requires i < |results|
    requires before == Outcome(fs, CliJobs(results[..i], root, useFullPath, lowerCase), contents, useFullPath)
    requires var dest := CliDestination(results[i], root, useFullPath, lowerCase);
      var path := ArchivePath(results[i], useFullPath, lowerCase);
      && after.files == Deliver(before.files, dest, Delivered(path, dest, contents, before))
      && (useFullPath ==> after.dirs == before.dirs + Created(DirChain(dest), before))
      && (!useFullPath ==> after.dirs == before.dirs)
      && after.cannotCreate == before.cannotCreate && after.cannotOpen == before.cannotOpen
    ensures after == Outcome(fs, CliJobs(results[..i + 1], root, useFullPath, lowerCase), contents, useFullPath)
  {
    var jobs := CliJobs(results[..i], root, useFullPath, lowerCase);
    var j := Job(ArchivePath(results[i], useFullPath, lowerCase), CliDestination(results[i], root, useFullPath, lowerCase));
    CliJobsStep(results, i, root, useFullPath, lowerCase);
    if useFullPath {
      ChainDirsStep(fs, before, jobs, j);
    }
    FilesAfterSnoc(fs.files, jobs, j, contents, fs);
  }

  /** The extraction of one turn of the CLI's loop: the filesystem moves
      from the outcome of the first `i` results to that of the first
      `i + 1`, and `entryOpened` is the archive open alone. */
  method ExtractNextCli(results: seq<Entry>, i: nat, root: string, useFullPath: bool, lowerCase: bool,
                        contents: Contents, fs: Fs, cur: Fs)
    returns (entryOpened: bool, cur': Fs)
    requires i < |results|
    requires cur == Outcome(fs, CliJobs(results[..i], root, useFullPath, lowerCase), contents, useFullPath)
    ensures entryOpened == (ArchivePath(results[i], useFullPath, lowerCase) in contents)
    ensures cur' == Outcome(fs, CliJobs(results[..i + 1], root, useFullPath, lowerCase), contents, useFullPath)
  {
    entryOpened, cur' := ExtractEntryCli(results[i], root, useFullPath, lowerCase, contents, cur);
    CliFsStep(results, i, root, useFullPath, lowerCase, contents, fs, cur, cur');
  }

  /** The count of one turn of the CLI's loop: an entry the archive opened
      is counted, and the progress after the increment is reported. */
  method CountNextCli(results: seq<Entry>, i: nat, useFullPath: bool, lowerCase: bool, contents: Contents,
                      entryOpened: bool, done: nat, progress: seq<int>)
    returns (done': nat, progress': seq<int>)
    requires i < |results|
    requires entryOpened == (ArchivePath(results[i], useFullPath, lowerCase) in contents)
    requires done == OpenedCount(results[..i], useFullPath, lowerCase, contents) && done <= i
    requires |progress| == done
    requires forall k :: 0 <= k < done ==> progress[k] == Percent(k + 1, |results|)
    ensures done' == OpenedCount(results[..i + 1], useFullPath, lowerCase, contents) && done' <= i + 1
    ensures |progress'| == done'
    ensures forall k :: 0 <= k < done' ==> progress'[k] == Percent(k + 1, |results|)
  {
    OpenedCountStep(results, i, useFullPath, lowerCase, contents);
    done', progress' := done, progress;
    if entryOpened {
      done' := done + 1;
      progress' := progress + [Percent(done', |results|)];
    }
  }

  /** The CLI's extraction loop: every entry the archive opens is counted
      and its progress reported after the increment. */
  method ExtractAllCli(results: seq<Entry>, root: string, useFullPath: bool, lowerCase: bool, contents: Contents, fs: Fs)
    returns (done: nat, progress: seq<int>, fs': Fs)
    requires results != []
    ensures done == OpenedCount(results, useFullPath, lowerCase, contents)
    ensures done <= |results|
    ensures |progress| == done
    ensures forall k :: 0 <= k < |progress| ==> progress[k] == Percent(k + 1, |results|)
    ensures forall k :: 0 <= k < |progress| ==> 0 <= progress[k] <= 100
    ensures forall k :: 0 <= k < |progress| ==> (progress[k] == 100 <==> k + 1 == |results|)
    ensures fs' == Outcome(fs, CliJobs(results, root, useFullPath, lowerCase), contents, useFullPath)
    ensures !useFullPath ==> fs'.dirs == fs.dirs
    ensures fs.dirs <= fs'.dirs
  {
    done, progress, fs' := 0, [], fs;
    var found := |results|;
    assert results[..0] == [];
    OutcomeOfNoJobs(fs, contents, useFullPath);
    for i := 0 to |results|
      invariant done == OpenedCount(results[..i], useFullPath, lowerCase, contents)
      invariant done <= i
      invariant |progress| == done
      invariant forall k :: 0 <= k < done ==> progress[k] == Percent(k + 1, found)
      invariant fs' == Outcome(fs, CliJobs(results[..i], root, useFullPath, lowerCase), contents, useFullPath)
    {
      var entryOpened;
      entryOpened, fs' := ExtractNextCli(results, i, root, useFullPath, lowerCase, contents, fs, fs');
      done, progress := CountNextCli(results, i, useFullPath, lowerCase, contents, entryOpened, done, progress);
    }
    assert results[..|results|] == results;
    CliProgressBounds(progress, found);
    OutcomeKeepsDirs(fs, CliJobs(results, root, useFullPath, lowerCase), contents, useFullPath);
  }

  /** `main` of src/storm-extract-cli.cpp: -2 when the storage does not
      open, -3 when enumeration yields no handle, otherwise 0 after the
      optional directory listing and extraction. */
  method RunCli(o: Options, storages: map<string, Storage>, fs: Fs) returns (run: Run)
    ensures StripTrailingSeparator(o.source) !in storages ==> run == Exit(-2, 0, 0, [], [], fs)
    ensures StripTrailingSeparator(o.source) in storages ==>
      var st := storages[StripTrailingSeparator(o.source)];
      var es := Enumerated(st.listing);
      var results := if o.directories then [] else Matched(o.criteria, es);
      && (st.listing.NoHandle? ==> run == Exit(-3, 0, 0, [], [], fs))
      && (st.listing.Handle? ==>
          && (run.Terminated? <==> o.extract && results != [] && o.destination == [])
          && (run.Exit? ==> run.code == 0 && run.found == |results|)
          && (run.Exit? && o.directories ==>
                forall d :: d in run.listing <==> d in DirectorySet(o.criteria, es))
          && (run.Exit? && !o.directories ==> run.listing == [])
          && (run.Exit? && o.extract && results != [] ==>
                run.done == OpenedCount(results, o.useFullPath, o.lowerCase, st.contents)
                && |run.progress| == run.done
                && (forall k :: 0 <= k < |run.progress| ==> run.progress[k] == Percent(k + 1, |results|))
                && run.fs == Outcome(fs, CliJobs(results, WithTrailingSlash(o.destination), o.useFullPath, o.lowerCase),
                                     st.contents, o.useFullPath))
          && (run.Exit? && !(o.extract && results != []) ==> run.done == 0 && run.progress == [] && run.fs == fs))
    ensures run.Exit? ==> forall i, j :: 0 <= i < j < |run.listing| ==> Compare(run.listing[i], run.listing[j]) < 0
    ensures run.Exit? ==> run.done <= run.found
    ensures run.Exit? ==> forall k :: 0 <= k < |run.progress| ==> 0 <= run.progress[k] <= 100
    ensures run.Exit? ==> fs.dirs <= run.fs.dirs
  {
    var source := StripTrailingSeparator(o.source);
    if source !in storages {
      return Exit(-2, 0, 0, [], [], fs);
    }
    var st := storages[source];
    var handle, found, results, dirs := ScanCli(o.criteria, st.listing, o.directories);
    if !handle {
      return Exit(-3, 0, 0, [], [], fs);
    }
    var listing := [];
    if o.directories {
      listing := SortedListing(dirs);
    }
    if o.extract && results != [] {
      if o.destination == [] {
        return Terminated;
      }
      var root := WithTrailingSlash(o.destination);
      var done, progress, fs' := ExtractAllCli(results, root, o.useFullPath, o.lowerCase, st.contents, fs);
      return Exit(0, found, done, progress, listing, fs');
    }
    return Exit(0, found, 0, [], listing, fs);
  }
}
