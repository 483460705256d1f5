/**
 The file-name sanitiser: every '#', '/', '\' and space in a file name is
 replaced by '-', so that the stored name can be used as a single path
 component on a storage disk.
 */
module FileNames {

  /** The character written in place of each forbidden one. */
  const Replacement: char := '-'

  /** The characters searched for, in the order the sanitiser lists them. */
  const ForbiddenChars: seq<char> := ['#', '/', '\\', ' ']

  predicate IsForbidden(c: char) {
    c == '#' || c == '/' || c == '\\' || c == ' '
  }

  /** A name that holds no forbidden character. */
  predicate IsSanitised(s: string) {
    forall i :: 0 <= i < |s| ==> !IsForbidden(s[i])
  }

  /** Replaces each forbidden character of `s` by '-' and keeps every other one. */
  function SanitiseFileName(s: string): (r: string)
    ensures |r| == |s|
    ensures forall i :: 0 <= i < |s| && IsForbidden(s[i]) ==> r[i] == Replacement
    ensures forall i :: 0 <= i < |s| && !IsForbidden(s[i]) ==> r[i] == s[i]
    ensures IsSanitised(r)
  {
    if s == [] then []
    else [if IsForbidden(s[0]) then Replacement else s[0]] + SanitiseFileName(s[1..])
  }

  /** Sanitising a name that is already clean returns it as it is, and only those. */
  lemma SanitiseFixedPoints(s: string)
    ensures SanitiseFileName(s) == s <==> IsSanitised(s)
  {
    if IsSanitised(s) {
      assert forall i :: 0 <= i < |s| ==> SanitiseFileName(s)[i] == s[i];
    }
  }

  /** Sanitising twice is the same as sanitising once. */
  lemma SanitiseIdempotent(s: string)
    ensures SanitiseFileName(SanitiseFileName(s)) == SanitiseFileName(s)
  {
    SanitiseFixedPoints(SanitiseFileName(s));
  }

  /** The sanitiser works character by character, so it distributes over concatenation. */
  lemma SanitiseConcat(a: string, b: string)
    ensures SanitiseFileName(a + b) == SanitiseFileName(a) + SanitiseFileName(b)
  {
    var l, r := SanitiseFileName(a + b), SanitiseFileName(a) + SanitiseFileName(b);
    forall i | 0 <= i < |l|
      ensures l[i] == r[i]
    {
      if i < |a| {
        assert (a + b)[i] == a[i];
      } else {
        assert (a + b)[i] == b[i - |a|];
      }
    }
  }

  // ---------------------------------------------------------------------------
  // Reference definition: the host language's `str_replace` with an array of
  // single-character searches and one replacement string. The searches are
  // applied one after another, each to the result of the previous one.
  // ---------------------------------------------------------------------------

  /** Replaces every occurrence of `from` in `s` by `to`. */
  function ReplaceChar(s: string, from: char, to: char): (r: string)
    ensures |r| == |s|
    ensures forall i :: 0 <= i < |s| ==> r[i] == (if s[i] == from then to else s[i])
  {
    if s == [] then []
    else [if s[0] == from then to else s[0]] + ReplaceChar(s[1..], from, to)
  }

  /** Applies `ReplaceChar(_, c, to)` for each `c` of `searches`, in order. */
  function ReplaceEach(s: string, searches: seq<char>, to: char): (r: string)
    ensures |r| == |s|
    ensures forall i :: 0 <= i < |s| && s[i] !in searches ==> r[i] == s[i]
    decreases |searches|
  {
    if searches == [] then s
    else ReplaceEach(ReplaceChar(s, searches[0], to), searches[1..], to)
  }

  /**
   When the replacement is not itself searched for, replacing the searches one
   after another amounts to one pointwise substitution.
   */
  lemma {:induction false} ReplaceEachPointwise(s: string, searches: seq<char>, to: char)
    requires to !in searches
    ensures |ReplaceEach(s, searches, to)| == |s|
    ensures forall i :: 0 <= i < |s| ==>
      ReplaceEach(s, searches, to)[i] == (if s[i] in searches then to else s[i])
    decreases |searches|
  {
    if searches != [] {
      var t := ReplaceChar(s, searches[0], to);
      ReplaceEachPointwise(t, searches[1..], to);
      forall i | 0 <= i < |s|
        ensures ReplaceEach(s, searches, to)[i] == (if s[i] in searches then to else s[i])
      {
        assert s[i] in searches <==> s[i] == searches[0] || s[i] in searches[1..];
      }
    }
  }

  /** The sanitiser is `str_replace(['#', '/', '\\', ' '], '-', name)`. */
  lemma SanitiseIsStrReplace(s: string)
    ensures SanitiseFileName(s) == ReplaceEach(s, ForbiddenChars, Replacement)
  {
    ReplaceEachPointwise(s, ForbiddenChars, Replacement);
    forall c: char
      ensures IsForbidden(c) <==> c in ForbiddenChars
    {
    }
  }
}
