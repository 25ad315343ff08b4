/** Destination-path planning shared by both programs: the `\` to `/`
    rewrite loop, the chain of parent directories, and the
    `opendir`/`mkdir` loop that realises that chain. */
module Paths {
  import opened Wrappers
  import opened Strings
  import opened FileSystem

  function SwapChar(ch: char): char
  {
    if ch == '\\' then '/' else ch
  }

  /** The reference for the rewrite: every `\` becomes `/`, all else stays. */
  function SwapSeparators(s: string): (r: string)
    ensures |r| == |s|
    ensures forall i :: 0 <= i < |r| ==> r[i] != '\\'
  {
    seq(|s|, i requires 0 <= i < |s| => SwapChar(s[i]))
  }

  /** Rewriting a path that has no `\` left changes nothing; in particular
      the rewrite is idempotent. */
  lemma SwapSeparatorsFixedPoint(s: string)
    ensures (forall i :: 0 <= i < |s| ==> s[i] != '\\') ==> SwapSeparators(s) == s
    ensures SwapSeparators(SwapSeparators(s)) == SwapSeparators(s)
  {
  }

  /** The source's loop: find the first `\`, replace that one character by
      `/`, and search again from the start. Each pass removes one `\`, so
      it ends. */
  method RewriteSeparators(s: string) returns (r: string)
    ensures r == SwapSeparators(s)
  {
    r := s;
    var offset := FindChar(r, '\\', 0);
    while offset.Some?
      invariant |r| == |s|
      invariant forall i :: 0 <= i < |s| ==> r[i] == s[i] || (s[i] == '\\' && r[i] == '/')
      invariant offset == FindChar(r, '\\', 0)
      decreases multiset(r)['\\']
    {
      r := r[offset.value := '/'];
      offset := FindChar(r, '\\', 0);
    }
  }

  /** The directories probed for a destination path: the prefix ending just
      before each `/`, shallowest first. */
  function DirChain(p: string): seq<string>
  {
    if p == [] then []
    else
      var n := |p| - 1;
      DirChain(p[..n]) + (if p[n] == '/' then [p[..n]] else [])
  }

  /** Each probed directory is a proper prefix of the path followed there by
      a `/` (so the file name itself is never probed), and the chain runs
      from shallow to deep. */
  lemma {:induction false} DirChainShape(p: string)
    ensures forall k :: 0 <= k < |DirChain(p)| ==>
      |DirChain(p)[k]| < |p| && p[..|DirChain(p)[k]|] == DirChain(p)[k] && p[|DirChain(p)[k]|] == '/'
    ensures forall j, k :: 0 <= j < k < |DirChain(p)| ==> |DirChain(p)[j]| < |DirChain(p)[k]|
  {
    if p != [] {
      var n := |p| - 1;
      DirChainShape(p[..n]);
      var r' := DirChain(p[..n]);
      forall k | 0 <= k < |r'|
        ensures p[..|r'[k]|] == r'[k]
      {
        assert p[..n][..|r'[k]|] == p[..|r'[k]|];
      }
    }
  }

  /** Every `/` of the path contributes the prefix before it. */
  lemma DirChainComplete(p: string)
    ensures forall i :: 0 <= i < |p| && p[i] == '/' ==> p[..i] in DirChain(p)
  {
    forall i | 0 <= i < |p| && p[i] == '/'
      ensures p[..i] in DirChain(p)
    {
      DirChainHas(p, i);
    }
  }

  lemma {:induction false} DirChainHas(p: string, i: nat)
    requires i < |p| && p[i] == '/'
    ensures p[..i] in DirChain(p)
    decreases |p|
  {
    var n := |p| - 1;
    if i < n {
      DirChainHas(p[..n], i);
      assert p[..n][..i] == p[..i];
    }
  }

  /** A stretch without `/` adds nothing to the chain. */
  lemma {:induction false} DirChainNoSlash(s: string, a: nat, b: nat)
    requires a <= b <= |s|
    requires forall i :: a <= i < b ==> s[i] != '/'
    ensures DirChain(s[..b]) == DirChain(s[..a])
    decreases b
  {
    if a < b {
      assert s[..b][..b - 1] == s[..b - 1];
      DirChainNoSlash(s, a, b - 1);
    }
  }

  /** The chain never holds the file name itself, and its elements are the
      directories of the path only: a path starting with `/` probes the
      empty path first. */
  lemma DirChainLeadingSlash(p: string)
    requires |p| > 0 && p[0] == '/'
    ensures |DirChain(p)| > 0 && DirChain(p)[0] == []
  {
    DirChainComplete(p);
    DirChainShape(p);
    assert p[..0] in DirChain(p);
  }

  /** The `/` found at `j` after a slash-free stretch from `from` adds
      exactly the prefix before it, which is new to the chain. */
  lemma DirChainStep(dest: string, from: nat, j: nat)
    requires from <= j < |dest| && dest[j] == '/'
    requires forall i :: from <= i < j ==> dest[i] != '/'
    ensures DirChain(dest[..j + 1]) == DirChain(dest[..from]) + [dest[..j]]
    ensures dest[..j] !in DirChain(dest[..from])
  {
    DirChainNoSlash(dest, from, j);
    DirChainShape(dest[..from]);
    assert dest[..j + 1][..j] == dest[..j];
  }

  /** The elements of `chain` that are not yet directories, in order. */
  function Missing(chain: seq<string>, existing: set<string>): seq<string>
  {
    if chain == [] then []
    else
      var n := |chain| - 1;
      Missing(chain[..n], existing) + (if chain[n] in existing then [] else [chain[n]])
  }

  lemma {:induction false} MissingMembers(chain: seq<string>, existing: set<string>)
    ensures forall d :: d in Missing(chain, existing) <==> d in chain && d !in existing
  {
    if chain != [] {
      var n := |chain| - 1;
      MissingMembers(chain[..n], existing);
      assert chain == chain[..n] + [chain[n]];
    }
  }

  lemma MissingSnoc(chain: seq<string>, d: string, existing: set<string>)
    ensures Missing(chain + [d], existing) == Missing(chain, existing) + (if d in existing then [] else [d])
  {
    assert (chain + [d])[..|chain|] == chain;
  }

  /** The directories `mkdir` adds for the prefixes in `visited`. */
  function Created(visited: seq<string>, fs: Fs): set<string>
  {
    if visited == [] then {}
    else
      var n := |visited| - 1;
      Created(visited[..n], fs) + (if visited[n] in fs.cannotCreate then {} else {visited[n]})
  }

  lemma {:induction false} CreatedMembers(visited: seq<string>, fs: Fs)
    ensures forall d :: d in Created(visited, fs) <==> d in visited && d !in fs.cannotCreate
  {
    if visited != [] {
      var n := |visited| - 1;
      CreatedMembers(visited[..n], fs);
      assert visited == visited[..n] + [visited[n]];
    }
  }

  lemma CreatedSnoc(visited: seq<string>, d: string, fs: Fs)
    ensures Created(visited + [d], fs) == Created(visited, fs) + (if d in fs.cannotCreate then {} else {d})
  {
    assert (visited + [d])[..|visited|] == visited;
  }

  /** Probing a prefix not seen before: it is a directory exactly when it
      was one at the start, and `mkdir` adds it unless it is refused. */
  lemma ProbeStep(visited: seq<string>, d: string, fs: Fs)
    requires d !in visited
    ensures d in fs.dirs + Created(visited, fs) <==> d in fs.dirs
    ensures d in fs.dirs ==> fs.dirs + Created(visited + [d], fs) == fs.dirs + Created(visited, fs)
    ensures d !in fs.dirs && d in fs.cannotCreate ==>
      fs.dirs + Created(visited + [d], fs) == fs.dirs + Created(visited, fs)
    ensures d !in fs.dirs && d !in fs.cannotCreate ==>
      fs.dirs + Created(visited + [d], fs) == fs.dirs + Created(visited, fs) + {d}
  {
    CreatedSnoc(visited, d, fs);
    CreatedMembers(visited, fs);
  }

  /** When every directory of the chain already exists, realising it again
      changes nothing and calls `mkdir` for none of them. */
  lemma RealisedChainIsStable(chain: seq<string>, fs: Fs)
    requires forall d :: d in chain ==> d in fs.dirs
    ensures fs.dirs + Created(chain, fs) == fs.dirs
    ensures Missing(chain, fs.dirs) == []
  {
    CreatedMembers(chain, fs);
    MissingMembers(chain, fs.dirs);
  }

  /** One turn of the probing loop: the `/` at `j` extends the chain by the
      prefix before it, which is passed to `mkdir` exactly when it is not
      yet a directory, and becomes one unless `mkdir` refuses it. */
  lemma ProbeAdvance(dest: string, from: nat, j: nat, fs: Fs)
    requires from <= j < |dest| && dest[j] == '/'
    requires forall i :: from <= i < j ==> dest[i] != '/'
    ensures var v, d := DirChain(dest[..from]), dest[..j];
      var now := fs.dirs + Created(v, fs);
      && DirChain(dest[..j + 1]) == v + [d]
      && Missing(v + [d], fs.dirs) == Missing(v, fs.dirs) + (if d in now then [] else [d])
      && fs.dirs + Created(v + [d], fs) == (if d in now || d in fs.cannotCreate then now else now + {d})
  {
    var v, d := DirChain(dest[..from]), dest[..j];
    DirChainStep(dest, from, j);
    MissingSnoc(v, d, fs.dirs);
    ProbeStep(v, d, fs);
  }

  /** Realising a chain twice: the second pass adds no directory, whatever
      `mkdir` refused the first time, and calls `mkdir` again only for the
      directories that were missing and refused. */
  lemma RealiseTwice(chain: seq<string>, fs: Fs)
    ensures var fs1 := fs.(dirs := fs.dirs + Created(chain, fs));
      && fs1.dirs + Created(chain, fs1) == fs1.dirs
      && forall d :: d in Missing(chain, fs1.dirs) <==> d in chain && d !in fs.dirs && d in fs.cannotCreate
  {
    var fs1 := fs.(dirs := fs.dirs + Created(chain, fs));
    CreatedMembers(chain, fs);
    CreatedMembers(chain, fs1);
    MissingMembers(chain, fs1.dirs);
  }

  /** The probing loop over `find("/", start + 1)` on a destination cut
      after its last `/`: each prefix that `opendir` cannot open is passed
      to `mkdir`; one that exists is only opened and closed. `mkdirs` are
      the `mkdir` calls in order. */
  method ProbeChain(dest: string, fs: Fs) returns (dirs: set<string>, mkdirs: seq<string>)
    ensures dirs == fs.dirs + Created(DirChain(dest), fs)
    ensures mkdirs == Missing(DirChain(dest), fs.dirs)
  {
    dirs, mkdirs := fs.dirs, [];
    var start := FindChar(dest, '/', 0);
    ghost var from: nat := 0;
    ghost var visited: seq<string> := [];
    while start.Some?
      invariant from <= |dest|
      invariant start == FindChar(dest, '/', from)
      invariant visited == DirChain(dest[..from])
      invariant dirs == fs.dirs + Created(visited, fs)
      invariant mkdirs == Missing(visited, fs.dirs)
      decreases |dest| - from
    {
      var j := start.value;
      var dirname := dest[..j];
      ProbeAdvance(dest, from, j, fs);
      if dirname !in dirs {
        mkdirs := mkdirs + [dirname];
        if dirname !in fs.cannotCreate {
          dirs := dirs + {dirname};
        }
      }
      visited := visited + [dirname];
      from := j + 1;
      start := FindChar(dest, '/', j + 1);
    }
    DirChainNoSlash(dest, from, |dest|);
    assert dest[..|dest|] == dest;
  }

  /** Cutting the path after its last `/` keeps its whole chain; a path
      without `/` has an empty chain. */
  lemma ChainOfCut(path: string, last: Option<nat>)
    requires last == LastIndexOf(path, '/')
    ensures last.None? ==> DirChain(path) == []
    ensures last.Some? ==> DirChain(path) == DirChain(path[..last.value + 1])
  {
    if last.None? {
      DirChainNoSlash(path, 0, |path|);
    } else {
      DirChainNoSlash(path, last.value + 1, |path|);
    }
    assert path[..|path|] == path;
  }

  /** Realising the directory chain of a destination path: cut it after its
      last `/` (nothing to do when there is none), then probe every prefix.
      A directory that already exists is never created again. */
  method CreateDirectories(path: string, fs: Fs) returns (fs': Fs, mkdirs: seq<string>)
    ensures fs' == fs.(dirs := fs.dirs + Created(DirChain(path), fs))
    ensures mkdirs == Missing(DirChain(path), fs.dirs)
    ensures (forall d :: d in DirChain(path) ==> d in fs.dirs) ==> fs' == fs && mkdirs == []
  {
    var last := LastIndexOf(path, '/');
    ChainOfCut(path, last);
    ghost var realised := forall d :: d in DirChain(path) ==> d in fs.dirs;
    if realised {
      RealisedChainIsStable(DirChain(path), fs);
    }
    if last.None? {
      return fs, [];
    }
    var dest := path[..last.value + 1];
    var dirs;
    dirs, mkdirs := ProbeChain(dest, fs);
    fs' := fs.(dirs := dirs);
  }
}
