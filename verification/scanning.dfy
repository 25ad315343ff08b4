/** The scan over the archive's entry stream: `searchArchive` of
    src/storm-extract.cpp and the inline scan of src/storm-extract-cli.cpp,
    whose "directories" mode collects parent paths into a sorted set. */
module Scanning {
  import opened Wrappers
  import opened Strings
  import opened Matching

  /** What the archive backend's enumeration yields: no handle at all when
      `CascFindFirstFile` fails, otherwise the first entry and the results
      of the successive `CascFindNextFile` calls, where `None` is a failed
      call or an entry whose plain name is null. */
  datatype Listing = NoHandle | Handle(first: Entry, next: seq<Option<Entry>>)

  /** The successful find-next results before the first failure. */
  function Successes(next: seq<Option<Entry>>): (r: seq<Entry>)
    ensures |r| <= |next|
    ensures forall k :: 0 <= k < |r| ==> next[k] == Some(r[k])
    ensures |r| < |next| ==> next[|r|].None?
  {
    if next == [] || next[0].None? then [] else [next[0].value] + Successes(next[1..])
  }

  /** The entries the do-while loop visits: the first one unconditionally,
      then every find-next result until the first failure. */
  function Enumerated(l: Listing): (es: seq<Entry>)
    ensures l.NoHandle? <==> es == []
    ensures l.Handle? ==> es[0] == l.first && |es| <= |l.next| + 1
    ensures l.Handle? ==> forall k :: 1 <= k < |es| ==> l.next[k - 1] == Some(es[k])
    ensures l.Handle? && |es| <= |l.next| ==> l.next[|es| - 1].None?
  {
    match l
    case NoHandle => []
    case Handle(first, next) => [first] + Successes(next)
  }

  /** The full path of each entry, in order. */
  function FullPaths(es: seq<Entry>): seq<string>
  {
    seq(|es|, k requires 0 <= k < |es| => es[k].fullPath)
  }

  lemma FullPathsSnoc(es: seq<Entry>, e: Entry)
    ensures FullPaths(es + [e]) == FullPaths(es) + [e.fullPath]
  {
  }

  /** Every path the scan keeps contains the search pattern. */
  lemma MatchedPathsContainPattern(c: Criteria, es: seq<Entry>)
    ensures forall p :: p in FullPaths(Matched(c, es)) ==> Contains(p, c.searchPattern)
  {
    var m := Matched(c, es);
    forall p | p in FullPaths(m)
      ensures Contains(p, c.searchPattern)
    {
      var k :| 0 <= k < |m| && FullPaths(m)[k] == p;
      assert m[k] in m;
      MatchedSound(c, es);
    }
  }

  /** The do-while condition: a successful find-next moves to the next
      enumerated entry, a failed one ends the enumeration. */
  lemma EnumerationStep(l: Listing, n: nat)
    requires l.Handle? && n < |Enumerated(l)|
    ensures n < |l.next| && l.next[n].Some? ==> n + 1 < |Enumerated(l)| && Enumerated(l)[n + 1] == l.next[n].value
    ensures !(n < |l.next| && l.next[n].Some?) ==> n + 1 == |Enumerated(l)|
  {
  }

  /** The loop condition `CascFindNextFile(...) && szPlainName != NULL`
      after the `n`-th visited entry: the next entry when there is one. */
  method NextEntry(l: Listing, n: nat) returns (next: Option<Entry>)
    requires l.Handle? && n < |Enumerated(l)|
    ensures next.Some? <==> n + 1 < |Enumerated(l)|
    ensures next.Some? ==> Enumerated(l)[n + 1] == next.value
  {
    EnumerationStep(l, n);
    next := if n < |l.next| then l.next[n] else None;
  }

  /** `searchArchive` of src/storm-extract.cpp: the full paths of the
      accepted entries, in enumeration order, one per accepted entry. */
  method SearchArchive(c: Criteria, l: Listing) returns (ret: seq<string>)
    ensures ret == FullPaths(Matched(c, Enumerated(l)))
    ensures forall p :: p in ret ==> Contains(p, c.searchPattern)
    ensures l.NoHandle? ==> ret == []
  {
    ret := [];
    ghost var es := Enumerated(l);
    if l.Handle? {
      var e := l.first;
      var n := 0;
      while true
        invariant n < |es| && es[n] == e
        invariant ret == FullPaths(Matched(c, es[..n]))
        decreases |l.next| - n
      {
        MatchedStep(c, es, n);
        FullPathsSnoc(Matched(c, es[..n]), e);
        if Accepts(c, e) {
          ret := ret + [e.fullPath];
        }
        var next := NextEntry(l, n);
        if next.None? {
          break;
        }
        e, n := next.value, n + 1;
      }
      assert es[..n + 1] == es;
    }
    MatchedPathsContainPattern(c, es);
  }

  /** The directory part the CLI keeps for an entry:
      `fullPath.substr(0, fullPath.size() - plainName.length())`. The length
      is a `size_t`, so a plain name longer than the path wraps round to a
      huge count and `substr` keeps the whole path. */
  function DirectoryOf(e: Entry): (r: string)
    ensures |r| <= |e.fullPath| && r == e.fullPath[..|r|]
    ensures |e.plainName| <= |e.fullPath| ==> |r| + |e.plainName| == |e.fullPath|
    ensures IsSuffix(e.plainName, e.fullPath) ==> r + e.plainName == e.fullPath
  {
    if |e.plainName| <= |e.fullPath| then e.fullPath[..|e.fullPath| - |e.plainName|]
    else e.fullPath
  }

  /** The set the CLI builds in directory mode. */
  function DirectorySet(c: Criteria, es: seq<Entry>): set<string>
  {
    set e | e in Matched(c, es) :: DirectoryOf(e)
  }

  lemma DirectorySetStep(c: Criteria, es: seq<Entry>, n: nat)
    requires n < |es|
    ensures DirectorySet(c, es[..n + 1])
      == DirectorySet(c, es[..n]) + (if Accepts(c, es[n]) then {DirectoryOf(es[n])} else {})
  {
    MatchedStep(c, es, n);
  }

  /** Each collected directory is the directory part of an accepted entry. */
  lemma DirectorySetSound(c: Criteria, es: seq<Entry>)
    ensures forall d :: d in DirectorySet(c, es) ==> exists e :: e in es && Accepts(c, e) && d == DirectoryOf(e)
  {
    MatchedSound(c, es);
    forall d | d in DirectorySet(c, es)
      ensures exists e :: e in es && Accepts(c, e) && d == DirectoryOf(e)
    {
      var e :| e in Matched(c, es) && d == DirectoryOf(e);
      assert e in es;
    }
  }

  /** One turn of the CLI's scan loop on the entry `e == es[n]`: an accepted
      entry adds its directory part in directory mode and is appended to
      the results otherwise. */
  method ScanStep(c: Criteria, ghost es: seq<Entry>, n: nat, e: Entry, directories: bool,
                  found: nat, results: seq<Entry>, dirs: set<string>)
    returns (found': nat, results': seq<Entry>, dirs': set<string>)
    requires n < |es| && es[n] == e
    requires directories ==> found == 0 && results == [] && dirs == DirectorySet(c, es[..n])
    requires !directories ==> results == Matched(c, es[..n]) && found == |results| && dirs == {}
    ensures directories ==> found' == 0 && results' == [] && dirs' == DirectorySet(c, es[..n + 1])
    ensures !directories ==> results' == Matched(c, es[..n + 1]) && found' == |results'| && dirs' == {}
  {
    found', results', dirs' := found, results, dirs;
    if directories {
      DirectorySetStep(c, es, n);
    } else {
      MatchedStep(c, es, n);
    }
    if Accepts(c, e) {
      if directories {
        dirs' := dirs + {DirectoryOf(e)};
      } else {
        found' := found + 1;
        results' := results + [e];
      }
    }
  }

  /** The scan in `main` of src/storm-extract-cli.cpp. `handle` is false
      when the first find fails (the caller then exits with -3). In
      directory mode only the directory set grows; otherwise `found` and
      `results` grow together. */
  method ScanCli(c: Criteria, l: Listing, directories: bool)
    returns (handle: bool, found: nat, results: seq<Entry>, dirs: set<string>)
    ensures handle <==> l.Handle?
    ensures directories ==> found == 0 && results == [] && dirs == DirectorySet(c, Enumerated(l))
    ensures !directories ==> results == Matched(c, Enumerated(l)) && found == |results| && dirs == {}
  {
    found, results, dirs := 0, [], {};
    ghost var es := Enumerated(l);
    if l.NoHandle? {
      return false, found, results, dirs;
    }
    handle := true;
    var e := l.first;
    var n := 0;
    while true
      invariant n < |es| && es[n] == e
      invariant directories ==> found == 0 && results == [] && dirs == DirectorySet(c, es[..n])
      invariant !directories ==> results == Matched(c, es[..n]) && found == |results| && dirs == {}
      decreases |l.next| - n
    {
      found, results, dirs := ScanStep(c, es, n, e, directories, found, results, dirs);
      var next := NextEntry(l, n);
      if next.None? {
        break;
      }
      e, n := next.value, n + 1;
    }
    assert es[..n + 1] == es;
  }

  /** The smallest element of a non-empty set of strings in `std::string`
      order. */
  method Least(s: set<string>) returns (m: string)
    requires s != {}
    ensures m in s
    ensures forall x :: x in s && x != m ==> Compare(m, x) < 0
  {
    m :| m in s;
    var todo := s - {m};
    while todo != {}
      invariant todo <= s && m in s && m !in todo
      invariant forall x :: x in s && x !in todo && x != m ==> Compare(m, x) < 0
      decreases |todo|
    {
      var x :| x in todo;
      if Compare(x, m) < 0 {
        forall y | y in s && y !in todo && y != m
          ensures Compare(x, y) < 0
        {
          CompareTransitive(x, m, y);
        }
        m := x;
      } else {
        CompareZero(x, m);
        CompareAntisymmetric(x, m);
      }
      todo := todo - {x};
    }
  }

  /** The order in which iterating a `std::set<std::string>` prints the
      directory set: ascending, each element once. */
  method SortedListing(s: set<string>) returns (r: seq<string>)
    ensures forall x :: x in r <==> x in s
    ensures forall i, j :: 0 <= i < j < |r| ==> Compare(r[i], r[j]) < 0
  {
    r := [];
    var rest := s;
    while rest != {}
      invariant rest <= s
      invariant forall x :: x in s <==> x in r || x in rest
      invariant forall i, j :: 0 <= i < j < |r| ==> Compare(r[i], r[j]) < 0
      invariant forall i, x :: 0 <= i < |r| && x in rest ==> Compare(r[i], x) < 0
      decreases |rest|
    {
      var m := Least(rest);
      r := r + [m];
      rest := rest - {m};
    }
  }
}
