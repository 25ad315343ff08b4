/** The handful of `std::string` operations the extractor relies on:
    `find`, `find_last_of`, `compare` and an ASCII `tolower`. */
module Strings {
  import opened Wrappers

  /** `pat` occurs in `s` starting at index `i`. */
  predicate OccursAt(s: string, pat: string, i: nat)
  {
    i + |pat| <= |s| && s[i..i + |pat|] == pat
  }

  /** `x` is a suffix of `s`. */
  predicate IsSuffix(x: string, s: string)
  {
    |x| <= |s| && s[|s| - |x|..] == x
  }

  /** `s.find(pat, from)`: the first index at or after `from` where `pat`
      occurs, `None` standing for `npos`. */
  function Find(s: string, pat: string, from: nat): (r: Option<nat>)
    ensures r.Some? ==> from <= r.value && OccursAt(s, pat, r.value)
    ensures r.Some? ==> forall i :: from <= i < r.value ==> !OccursAt(s, pat, i)
    ensures r.None? ==> forall i :: from <= i ==> !OccursAt(s, pat, i)
    decreases |s| - from
  {
    if |s| < from + |pat| then None
    else if s[from..from + |pat|] == pat then Some(from)
    else Find(s, pat, from + 1)
  }

  /** `s.find(pat) != npos`. */
  predicate Contains(s: string, pat: string)
  {
    Find(s, pat, 0).Some?
  }

  /** Substring search succeeds exactly when some occurrence exists; in
      particular the empty pattern is found in every string. */
  lemma ContainsIff(s: string, pat: string)
    ensures Contains(s, pat) <==> exists i :: OccursAt(s, pat, i)
    ensures pat == [] ==> Contains(s, pat)
  {
    if pat == [] {
      assert OccursAt(s, pat, 0);
    }
  }

  lemma OccursAtSingle(s: string, c: char, i: nat)
    ensures OccursAt(s, [c], i) <==> i < |s| && s[i] == c
  {
    if i < |s| && s[i] == c {
      assert s[i..i + 1] == [c];
    }
  }

  /** `s.find(c, from)` for a one-character pattern, stated per character. */
  function FindChar(s: string, c: char, from: nat): (r: Option<nat>)
    ensures r.Some? ==> from <= r.value < |s| && s[r.value] == c
    ensures r.Some? ==> forall i :: from <= i < r.value ==> s[i] != c
    ensures r.None? ==> forall i :: from <= i < |s| ==> s[i] != c
  {
    var r := Find(s, [c], from);
    if r.Some? then
      OccursAtSingle(s, c, r.value);
      assert forall i :: from <= i < r.value ==> s[i] != c by {
        forall i | from <= i < r.value
          ensures s[i] != c
        {
          OccursAtSingle(s, c, i);
        }
      }
      r
    else
      assert forall i :: from <= i < |s| ==> s[i] != c by {
        forall i | from <= i < |s|
          ensures s[i] != c
        {
          OccursAtSingle(s, c, i);
        }
      }
      r
  }

  /** `s.find_last_of(c)`: the last index holding `c`. */
  function LastIndexOf(s: string, c: char): (r: Option<nat>)
    ensures r.Some? ==> r.value < |s| && s[r.value] == c
    ensures r.Some? ==> forall i :: r.value < i < |s| ==> s[i] != c
    ensures r.None? ==> forall i :: 0 <= i < |s| ==> s[i] != c
  {
    if s == [] then None
    else if s[|s| - 1] == c then Some(|s| - 1)
    else LastIndexOf(s[..|s| - 1], c)
  }

  /** The sign of `a.compare(b)`: lexicographic order on character codes,
      a proper prefix ordering before the longer string. This is the order
      of `std::less<std::string>` and so of a `std::set<std::string>`. */
  function Compare(a: string, b: string): (r: int)
    ensures -1 <= r <= 1
  {
    if a == [] && b == [] then 0
    else if a == [] then -1
    else if b == [] then 1
    else if a[0] < b[0] then -1
    else if b[0] < a[0] then 1
    else Compare(a[1..], b[1..])
  }

  lemma {:induction false} CompareZero(a: string, b: string)
    ensures Compare(a, b) == 0 <==> a == b
  {
    if a != [] && b != [] && a[0] == b[0] {
      CompareZero(a[1..], b[1..]);
      if a[1..] == b[1..] {
        assert a == [a[0]] + a[1..];
        assert b == [b[0]] + b[1..];
      }
    }
  }

  lemma {:induction false} CompareAntisymmetric(a: string, b: string)
    ensures Compare(a, b) == -Compare(b, a)
  {
    if a != [] && b != [] && a[0] == b[0] {
      CompareAntisymmetric(a[1..], b[1..]);
    }
  }

  lemma {:induction false} CompareTransitive(a: string, b: string, c: string)
    requires Compare(a, b) < 0 && Compare(b, c) < 0
    ensures Compare(a, c) < 0
  {
    if a != [] && b != [] && c != [] && a[0] == b[0] && b[0] == c[0] {
      CompareTransitive(a[1..], b[1..], c[1..]);
    }
  }

  predicate IsUpperAscii(ch: char)
  {
    'A' <= ch <= 'Z'
  }

  /** `::tolower` in the "C" locale: only `A`..`Z` change. */
  function LowerChar(ch: char): char
  {
    if IsUpperAscii(ch) then (ch as int + 32) as char else ch
  }

  /** `std::transform(..., ::tolower)` over a whole string. */
  function Lower(s: string): (r: string)
    ensures |r| == |s|
    ensures forall i :: 0 <= i < |s| ==> !IsUpperAscii(r[i])
    ensures forall i :: 0 <= i < |s| && !IsUpperAscii(s[i]) ==> r[i] == s[i]
    ensures forall i :: 0 <= i < |s| && IsUpperAscii(s[i]) ==> r[i] as int == s[i] as int + 32
  {
    seq(|s|, i requires 0 <= i < |s| => LowerChar(s[i]))
  }
}
