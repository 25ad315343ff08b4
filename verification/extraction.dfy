/** Streaming one archive entry to disk: `extractFile` of
    src/storm-extract.cpp and the body of the extraction loop of
    src/storm-extract-cli.cpp. */
module Extraction {
  import opened Wrappers
  import opened Strings
  import opened FileSystem
  import opened Matching
  import opened Paths

  /** The bytes one `CascReadFile` call puts in the buffer. */
  type Chunk = seq<byte>

  /** The archive's side of extraction: for every path `CascOpenFile`
      accepts, the successive buffers `CascReadFile` fills. Once the list is
      used up every further read returns zero bytes. */
  type Contents = map<string, seq<Chunk>>

  function ReadAt(buffers: seq<Chunk>, i: nat): Chunk
  {
    if i < |buffers| then buffers[i] else []
  }

  /** `fwrite(&buffer, read, 1, dest)`: one item for a non-empty buffer,
      none when the element size is zero. */
  function ItemsOf(read: Chunk): nat
  {
    if |read| > 0 then 1 else 0
  }

  /** The buffers the copy loop writes: the buffers before the first empty one. */
  function Copied(buffers: seq<Chunk>): (r: seq<Chunk>)
    ensures |r| <= |buffers|
    ensures forall k :: 0 <= k < |r| ==> r[k] == buffers[k] && |r[k]| > 0
    ensures |r| < |buffers| ==> buffers[|r|] == []
  {
    if buffers == [] || buffers[0] == [] then [] else [buffers[0]] + Copied(buffers[1..])
  }

  function Flatten(chunks: seq<Chunk>): seq<byte>
  {
    if chunks == [] then [] else chunks[0] + Flatten(chunks[1..])
  }

  lemma {:induction false} FlattenSnoc(chunks: seq<Chunk>, c: Chunk)
    ensures Flatten(chunks + [c]) == Flatten(chunks) + c
  {
    if chunks != [] {
      assert (chunks + [c])[1..] == chunks[1..] + [c];
      FlattenSnoc(chunks[1..], c);
    }
  }

  /** Non-empty buffers flatten to at least one byte each. */
  lemma {:induction false} FlattenOfNonEmpty(chunks: seq<Chunk>)
    requires forall k :: 0 <= k < |chunks| ==> |chunks[k]| > 0
    ensures |Flatten(chunks)| >= |chunks|
  {
    if chunks != [] {
      FlattenOfNonEmpty(chunks[1..]);
    }
  }

  /** The read-write loop: read a buffer, write it as one item, and stop
      after the first read that returns zero bytes. `items` is the sum of
      the `fwrite` results, so a zero-length entry yields 0. */
  method CopyChunks(buffers: seq<Chunk>) returns (data: seq<byte>, items: nat)
    ensures data == Flatten(Copied(buffers))
    ensures items == |Copied(buffers)|
    ensures items == 0 <==> data == []
  {
    data, items := [], 0;
    ghost var copied := Copied(buffers);
    var i := 0;
    while true
      invariant i <= |copied|
      invariant data == Flatten(copied[..i]) && items == i
      decreases |buffers| - i
    {
      var read := ReadAt(buffers, i);
      if |read| > 0 {
        assert i < |copied| && copied[i] == read;
        assert copied[..i + 1] == copied[..i] + [read];
        FlattenSnoc(copied[..i], read);
      }
      items := items + ItemsOf(read);
      data := data + read;
      if |read| == 0 {
        break;
      }
      i := i + 1;
    }
    assert copied[..i] == copied;
    FlattenOfNonEmpty(copied);
  }

  /** The buffers a read of `size` bytes at a time yields for `content`. */
  function Split(content: seq<byte>, size: nat): (r: seq<Chunk>)
    requires size > 0
    ensures forall k :: 0 <= k < |r| ==> 0 < |r[k]| <= size
    decreases |content|
  {
    if content == [] then []
    else if |content| <= size then [content]
    else [content[..size]] + Split(content[size..], size)
  }

  /** Whatever the buffer size, the loop writes exactly the entry's bytes
      and returns one item per buffer. */
  lemma {:induction false} CopyRoundTrip(content: seq<byte>, size: nat)
    requires size > 0
    ensures Copied(Split(content, size)) == Split(content, size)
    ensures Flatten(Copied(Split(content, size))) == content
    decreases |content|
  {
    var r := Split(content, size);
    if content != [] && |content| > size {
      CopyRoundTrip(content[size..], size);
      assert r[1..] == Split(content[size..], size);
      assert content == content[..size] + content[size..];
    }
  }

  /** The bytes that end up at `dest` for archive path `path`: none when
      `CascOpenFile` fails or `fopen` refuses the destination. */
  function Delivered(path: string, dest: string, contents: Contents, fs: Fs): Option<seq<byte>>
  {
    if path !in contents || dest in fs.cannotOpen then None
    else Some(Flatten(Copied(contents[path])))
  }

  /** The files after an extraction attempt: the destination is created or
      truncated and filled only when both opens succeed. */
  function Deliver(files: map<string, seq<byte>>, dest: string, d: Option<seq<byte>>): map<string, seq<byte>>
  {
    if d.Some? then files[dest := d.value] else files
  }

  /** `extractFile`: build `destination + fullPath`, rewrite separators,
      realise its directory chain (even when the entry then fails to open),
      and copy. The result counts `fwrite` items, not bytes, and is 0 on
      either open failure. */
  method ExtractFile(fullPath: string, destination: string, contents: Contents, fs: Fs)
    returns (written: nat, fs': Fs)
    ensures var dest := SwapSeparators(destination + fullPath);
      var d := Delivered(fullPath, dest, contents, fs);
      && fs' == fs.(dirs := fs.dirs + Created(DirChain(dest), fs), files := Deliver(fs.files, dest, d))
      && (d.None? ==> written == 0)
      && (d.Some? ==> written == |Copied(contents[fullPath])|)
      && (written > 0 <==> d.Some? && d.value != [])
  {
    var dest := RewriteSeparators(destination + fullPath);
    var mkdirs;
    fs', mkdirs := CreateDirectories(dest, fs);
    if fullPath !in contents {
      return 0, fs';
    }
    if dest in fs.cannotOpen {
      return 0, fs';
    }
    var data;
    data, written := CopyChunks(contents[fullPath]);
    fs' := fs'.(files := fs'.files[dest := data]);
  }

  /** The archive path the CLI opens: in full-path mode the lower-casing
      is done in place on the stored path, so the lower-cased path is what
      `CascOpenFile` receives. */
  function ArchivePath(e: Entry, useFullPath: bool, lowerCase: bool): string
  {
    if useFullPath && lowerCase then Lower(e.fullPath) else e.fullPath
  }

  /** The CLI's destination: the full path (separators rewritten) or only
      the plain name, lower-cased on request, under the output root. */
  function CliDestination(e: Entry, root: string, useFullPath: bool, lowerCase: bool): (d: string)
    ensures useFullPath ==> |d| == |root| + |e.fullPath| && forall i :: 0 <= i < |d| ==> d[i] != '\\'
    ensures !useFullPath ==> |d| == |root| + |e.plainName| && d[..|root|] == root
    ensures !useFullPath && lowerCase ==> forall i :: |root| <= i < |d| ==> !IsUpperAscii(d[i])
  {
    if useFullPath then SwapSeparators(root + ArchivePath(e, useFullPath, lowerCase))
    else root + (if lowerCase then Lower(e.plainName) else e.plainName)
  }

  /** One extraction as the filesystem sees it: the archive path opened and
      the destination written. */
  datatype Job = Job(path: string, dest: string)

  /** The directories on the chains of all the jobs' destinations. */
  function ChainDirs(jobs: seq<Job>): set<string>
  {
    if jobs == [] then {}
    else
      var n := |jobs| - 1;
      ChainDirs(jobs[..n]) + (set d | d in DirChain(jobs[n].dest))
  }

  lemma ChainDirsSnoc(jobs: seq<Job>, j: Job)
    ensures ChainDirs(jobs + [j]) == ChainDirs(jobs) + (set d | d in DirChain(j.dest))
  {
    assert (jobs + [j])[..|jobs|] == jobs;
  }

  /** A directory is on some job's chain exactly when some job's
      destination has it as a directory, whatever the order of the jobs. */
  lemma {:induction false} ChainDirsMembers(jobs: seq<Job>)
    ensures forall d :: d in ChainDirs(jobs) <==> exists k :: 0 <= k < |jobs| && d in DirChain(jobs[k].dest)
  {
    if jobs != [] {
      var n := |jobs| - 1;
      ChainDirsMembers(jobs[..n]);
      forall d | d in ChainDirs(jobs)
        ensures exists k :: 0 <= k < |jobs| && d in DirChain(jobs[k].dest)
      {
        if d in ChainDirs(jobs[..n]) {
          var k :| 0 <= k < n && d in DirChain(jobs[..n][k].dest);
          assert jobs[..n][k] == jobs[k];
        } else {
          assert d in DirChain(jobs[n].dest);
        }
      }
      forall d | exists k :: 0 <= k < |jobs| && d in DirChain(jobs[k].dest)
        ensures d in ChainDirs(jobs)
      {
        var k :| 0 <= k < |jobs| && d in DirChain(jobs[k].dest);
        if k < n {
          assert jobs[..n][k] == jobs[k];
        }
      }
    }
  }

  /** Realising one more destination's chain on a filesystem whose
      directories are those of `fs0` plus every earlier chain directory
      that `mkdir` does not refuse keeps that description. */
  lemma ChainDirsStep(fs0: Fs, before: Fs, jobs: seq<Job>, j: Job)
    requires before.cannotCreate == fs0.cannotCreate
    requires before.dirs == fs0.dirs + (ChainDirs(jobs) - fs0.cannotCreate)
    ensures before.dirs + Created(DirChain(j.dest), before) == fs0.dirs + (ChainDirs(jobs + [j]) - fs0.cannotCreate)
  {
    ChainDirsSnoc(jobs, j);
    CreatedMembers(DirChain(j.dest), before);
  }

  /** The files after the jobs ran in order: each one delivers to its
      destination, a later delivery overwriting an earlier one. */
  function FilesAfter(files: map<string, seq<byte>>, jobs: seq<Job>, contents: Contents, fs: Fs): map<string, seq<byte>>
  {
    if jobs == [] then files
    else
      var n := |jobs| - 1;
      Deliver(FilesAfter(files, jobs[..n], contents, fs), jobs[n].dest, Delivered(jobs[n].path, jobs[n].dest, contents, fs))
  }

  lemma FilesAfterSnoc(files: map<string, seq<byte>>, jobs: seq<Job>, j: Job, contents: Contents, fs: Fs)
    ensures FilesAfter(files, jobs + [j], contents, fs)
      == Deliver(FilesAfter(files, jobs, contents, fs), j.dest, Delivered(j.path, j.dest, contents, fs))
  {
    assert (jobs + [j])[..|jobs|] == jobs;
  }

  /** A path that no job writes to keeps its presence and its content. */
  lemma {:induction false} FilesAfterUntouched(files: map<string, seq<byte>>, jobs: seq<Job>, contents: Contents, fs: Fs, p: string)
    requires forall k :: 0 <= k < |jobs| ==> jobs[k].dest != p
    ensures p in FilesAfter(files, jobs, contents, fs) <==> p in files
    ensures p in files ==> FilesAfter(files, jobs, contents, fs)[p] == files[p]
  {
    if jobs != [] {
      var n := |jobs| - 1;
      assert forall k :: 0 <= k < n ==> jobs[..n][k] == jobs[k];
      FilesAfterUntouched(files, jobs[..n], contents, fs, p);
    }
  }

  /** Last write wins: a destination holds what the last job that
      delivered there wrote. */
  lemma {:induction false} FilesAfterLastWrite(files: map<string, seq<byte>>, jobs: seq<Job>, contents: Contents, fs: Fs, k: nat)
    requires k < |jobs| && Delivered(jobs[k].path, jobs[k].dest, contents, fs).Some?
    requires forall j :: k < j < |jobs| ==>
      jobs[j].dest != jobs[k].dest || Delivered(jobs[j].path, jobs[j].dest, contents, fs).None?
    ensures jobs[k].dest in FilesAfter(files, jobs, contents, fs)
    ensures FilesAfter(files, jobs, contents, fs)[jobs[k].dest] == Delivered(jobs[k].path, jobs[k].dest, contents, fs).value
  {
    var n := |jobs| - 1;
    if k < n {
      assert forall j :: k < j < n ==> jobs[..n][j] == jobs[j];
      assert jobs[..n][k] == jobs[k];
      FilesAfterLastWrite(files, jobs[..n], contents, fs, k);
    }
  }

  /** The filesystem after the jobs ran on `fs`: when the jobs create their
      destinations' directories, every directory on their chains that
      `mkdir` does not refuse is added; the files are those the deliveries
      leave. */
  function Outcome(fs: Fs, jobs: seq<Job>, contents: Contents, createsDirs: bool): Fs
  {
    fs.(dirs := if createsDirs then fs.dirs + (ChainDirs(jobs) - fs.cannotCreate) else fs.dirs,
        files := FilesAfter(fs.files, jobs, contents, fs))
  }

  lemma OutcomeOfNoJobs(fs: Fs, contents: Contents, createsDirs: bool)
    ensures Outcome(fs, [], contents, createsDirs) == fs
  {
    assert fs.dirs + ({} - fs.cannotCreate) == fs.dirs;
  }

  /** Running jobs never removes a directory, and leaves the refusals of
      `mkdir` and `fopen` as they were. */
  lemma OutcomeKeepsDirs(fs: Fs, jobs: seq<Job>, contents: Contents, createsDirs: bool)
    ensures fs.dirs <= Outcome(fs, jobs, contents, createsDirs).dirs
    ensures !createsDirs ==> Outcome(fs, jobs, contents, createsDirs).dirs == fs.dirs
    ensures Outcome(fs, jobs, contents, createsDirs).cannotCreate == fs.cannotCreate
    ensures Outcome(fs, jobs, contents, createsDirs).cannotOpen == fs.cannotOpen
  {
  }

  /** One iteration of the CLI's extraction loop. Only full-path mode
      rewrites separators and creates directories. `entryOpened` reports whether
      `CascOpenFile` succeeded, which is what the caller counts, whether or
      not the destination could be opened. */
  method ExtractEntryCli(e: Entry, root: string, useFullPath: bool, lowerCase: bool, contents: Contents, fs: Fs)
    returns (entryOpened: bool, fs': Fs)
    ensures var dest := CliDestination(e, root, useFullPath, lowerCase);
      var path := ArchivePath(e, useFullPath, lowerCase);
      && entryOpened == (path in contents)
      && fs'.files == Deliver(fs.files, dest, Delivered(path, dest, contents, fs))
      && (useFullPath ==> fs'.dirs == fs.dirs + Created(DirChain(dest), fs))
      && (!useFullPath ==> fs'.dirs == fs.dirs)
      && fs'.cannotCreate == fs.cannotCreate && fs'.cannotOpen == fs.cannotOpen
  {
    var path := e.fullPath;
    var dest := root;
    fs' := fs;
    if useFullPath {
      if lowerCase {
        path := Lower(path);
      }
      dest := RewriteSeparators(dest + path);
      var mkdirs;
      fs', mkdirs := CreateDirectories(dest, fs);
    } else {
      var name := e.plainName;
      if lowerCase {
        name := Lower(name);
      }
      dest := dest + name;
    }
    entryOpened := path in contents;
    if entryOpened && dest !in fs.cannotOpen {
      var data, items := CopyChunks(contents[path]);
      fs' := fs'.(files := fs'.files[dest := data]);
    }
  }
}
