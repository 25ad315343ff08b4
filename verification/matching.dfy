/** The match predicate applied to every enumerated archive entry, shared by
    `searchArchive` in src/storm-extract.cpp and the inline scan of
    src/storm-extract-cli.cpp. */
module Matching {
  import opened Strings

  /** One enumerated entry: the plain name (last path segment) and the full
      archive-internal path. */
  datatype Entry = Entry(plainName: string, fullPath: string)

  /** The search options: the full-path substring (`-s`, default "/"), the
      optional filename substring (`-f`, flag `bPattern`) and the optional
      extension (`-e`/`--extension` in the CLI, `-t`/`--filetype` in the first
      program; flag `bFileExt`). */
  datatype Criteria = Criteria(
    searchPattern: string,
    usePattern: bool,
    filePattern: string,
    useExt: bool,
    fileExt: string)

  /** The criteria with no option given on the command line. */
  const DefaultCriteria := Criteria("/", false, "", false, "")

  /** `hasExtension`: a length guard so that the suffix comparison is never
      out of range, then `compare` of the name's tail with the extension. */
  function HasExtension(filename: string, extension: string): (r: bool)
    ensures r <==> |filename| > |extension| && IsSuffix(extension, filename)
    ensures |filename| <= |extension| ==> !r
    ensures extension == [] ==> (r <==> filename != [])
  {
    if |filename| > |extension| then
      var tail := filename[|filename| - |extension|..];
      CompareZero(tail, extension);
      Compare(tail, extension) == 0
    else
      false
  }

  /** The acceptance test exactly as both sources write it: the path
      substring gate, then a four-way disjunction over the two flags. */
  predicate Accepts(c: Criteria, e: Entry)
  {
    && Contains(e.fullPath, c.searchPattern)
    && (|| (!c.usePattern && !c.useExt)
        || (!c.usePattern && c.useExt && HasExtension(e.plainName, c.fileExt))
        || (c.usePattern && Contains(e.plainName, c.filePattern) && !c.useExt)
        || (c.usePattern && Contains(e.plainName, c.filePattern) && c.useExt
            && HasExtension(e.plainName, c.fileExt)))
  }

  /** The four-way disjunction is the conjunction of three independent
      filters, each switched off by its flag; the name filters look only at
      the plain name. */
  lemma AcceptsIsConjunction(c: Criteria, e: Entry)
    ensures Accepts(c, e) <==>
      && (exists i :: OccursAt(e.fullPath, c.searchPattern, i))
      && (c.usePattern ==> exists i :: OccursAt(e.plainName, c.filePattern, i))
      && (c.useExt ==> |e.plainName| > |c.fileExt| && IsSuffix(c.fileExt, e.plainName))
  {
    ContainsIff(e.fullPath, c.searchPattern);
    ContainsIff(e.plainName, c.filePattern);
  }

  /** With neither name filter given, only the path substring decides. */
  lemma AcceptsWithoutNameFilters(c: Criteria, e: Entry)
    requires !c.usePattern && !c.useExt
    ensures Accepts(c, e) <==> exists i :: OccursAt(e.fullPath, c.searchPattern, i)
  {
    ContainsIff(e.fullPath, c.searchPattern);
  }

  /** The indices of the accepted entries of `es`, in enumeration order. */
  function MatchIndices(c: Criteria, es: seq<Entry>): (r: seq<nat>)
    ensures forall k :: 0 <= k < |r| ==> r[k] < |es| && Accepts(c, es[r[k]])
    ensures forall j, k :: 0 <= j < k < |r| ==> r[j] < r[k]
    ensures forall i :: 0 <= i < |es| && Accepts(c, es[i]) ==> i in r
  {
    if es == [] then []
    else
      var n := |es| - 1;
      MatchIndices(c, es[..n]) + (if Accepts(c, es[n]) then [n] else [])
  }

  /** The accepted entries themselves, in enumeration order and without
      deduplication: the scan keeps each entry the predicate accepts. */
  function Matched(c: Criteria, es: seq<Entry>): seq<Entry>
  {
    if es == [] then []
    else
      var n := |es| - 1;
      Matched(c, es[..n]) + (if Accepts(c, es[n]) then [es[n]] else [])
  }

  /** Scanning one more entry appends it to the matches exactly when the
      predicate accepts it. */
  lemma MatchedStep(c: Criteria, es: seq<Entry>, n: nat)
    requires n < |es|
    ensures Matched(c, es[..n + 1]) == Matched(c, es[..n]) + (if Accepts(c, es[n]) then [es[n]] else [])
  {
    assert es[..n + 1][..n] == es[..n];
  }

  /** `Matched` is a filter: every kept entry is accepted, and each entry
      occurs among the matches exactly as often as it was enumerated when
      the predicate accepts it, and never otherwise. */
  lemma {:induction false} MatchedFilter(c: Criteria, es: seq<Entry>)
    ensures forall k :: 0 <= k < |Matched(c, es)| ==> Accepts(c, Matched(c, es)[k])
    ensures forall e :: multiset(Matched(c, es))[e] == if Accepts(c, e) then multiset(es)[e] else 0
  {
    if es != [] {
      var n := |es| - 1;
      MatchedFilter(c, es[..n]);
      assert es == es[..n] + [es[n]];
    }
  }

  /** The order of the matches: the k-th match is the entry at the k-th
      accepted position, so matches keep their enumeration order. */
  lemma {:induction false} MatchedAtIndices(c: Criteria, es: seq<Entry>)
    ensures |Matched(c, es)| == |MatchIndices(c, es)|
    ensures forall k :: 0 <= k < |Matched(c, es)| ==> Matched(c, es)[k] == es[MatchIndices(c, es)[k]]
  {
    if es != [] {
      var n := |es| - 1;
      MatchedAtIndices(c, es[..n]);
      var m, idx := Matched(c, es[..n]), MatchIndices(c, es[..n]);
      forall k | 0 <= k < |m|
        ensures m[k] == es[idx[k]]
      {
        assert es[..n][idx[k]] == es[idx[k]];
      }
    }
  }

  /** Every entry that `Matched` keeps passes the predicate, so in
      particular its full path contains the search pattern; and every
      accepted entry is kept. */
  lemma MatchedSound(c: Criteria, es: seq<Entry>)
    ensures forall e :: e in Matched(c, es) ==> e in es && Accepts(c, e) && Contains(e.fullPath, c.searchPattern)
    ensures forall e :: e in es && Accepts(c, e) ==> e in Matched(c, es)
  {
    MatchedFilter(c, es);
    var m := Matched(c, es);
    forall e | e in es && Accepts(c, e)
      ensures e in m
    {
      assert multiset(es)[e] > 0;
      assert multiset(m)[e] > 0;
    }
    forall e | e in m
      ensures e in es && Accepts(c, e)
    {
      assert multiset(m)[e] > 0;
    }
  }

  /** Scenario: extension "wav" with the default path pattern keeps only
      the .wav entry. */
  lemma ScenarioExtensionOnly()
    ensures
      var c := DefaultCriteria.(useExt := true, fileExt := "wav");
      MatchIndices(c, [Entry("x.wav", "a/b/x.wav"), Entry("x.ogg", "a/b/x.ogg")]) == [0]
  {
    var c := DefaultCriteria.(useExt := true, fileExt := "wav");
    var wav := Entry("x.wav", "a/b/x.wav");
    var ogg := Entry("x.ogg", "a/b/x.ogg");
    ScenarioWavAccepted();
    ScenarioOggRejected();
    assert [wav, ogg][..1] == [wav];
    assert [wav][..0] == [];
  }

  lemma ScenarioWavAccepted()
    ensures Accepts(DefaultCriteria.(useExt := true, fileExt := "wav"), Entry("x.wav", "a/b/x.wav"))
  {
    var path := "a/b/x.wav";
    OccursAtSingle(path, '/', 1);
    ContainsIff(path, "/");
    assert IsSuffix("wav", "x.wav");
  }

  lemma ScenarioOggRejected()
    ensures !Accepts(DefaultCriteria.(useExt := true, fileExt := "wav"), Entry("x.ogg", "a/b/x.ogg"))
  {
    var name := "x.ogg";
    assert !IsSuffix("wav", name) by {
      assert name[2] != 'w';
    }
  }
}
