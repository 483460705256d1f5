/**
 The two components of the host language's `pathinfo` that the uploader reads,
 simplified to '/'-separated paths: the base name (text after the last '/')
 and the file name (the base name up to its last '.').
 */
module PathInfo {
  import opened Results

  /** The position of the last `c` in `s`, if there is one. */
  function LastIndexOf(s: string, c: char): (r: Option<nat>)
    ensures r.Some? ==> r.value < |s| && s[r.value] == c
    ensures r.Some? ==> forall j :: r.value < j < |s| ==> s[j] != c
    ensures r.None? ==> forall j :: 0 <= j < |s| ==> s[j] != c
    decreases |s|
  {
    if s == [] then None
    else if s[|s| - 1] == c then Some(|s| - 1)
    else LastIndexOf(s[..|s| - 1], c)
  }

  /** `pathinfo($path, PATHINFO_BASENAME)`: the longest suffix without a '/'. */
  function BaseName(path: string): (r: string)
    ensures |r| <= |path| && path[|path| - |r|..] == r
    ensures forall i :: 0 <= i < |r| ==> r[i] != '/'
    ensures |r| == |path| || path[|path| - |r| - 1] == '/'
  {
    match LastIndexOf(path, '/')
    case None => path
    case Some(i) => path[i + 1..]
  }

  /**
   `pathinfo($path, PATHINFO_FILENAME)`: the base name without its extension.
   It is the whole base name when that has no '.', and otherwise the part of
   the base name before its last '.'.
   */
  function FileName(path: string): (r: string)
    ensures var b := BaseName(path);
      && |r| <= |b| && b[..|r|] == r
      && (|r| == |b| ==> forall i :: 0 <= i < |b| ==> b[i] != '.')
      && (|r| < |b| ==> b[|r|] == '.' && forall i :: |r| < i < |b| ==> b[i] != '.')
  {
    var b := BaseName(path);
    match LastIndexOf(b, '.')
    case None => b
    case Some(i) => b[..i]
  }

  /** A path without directories is its own base name. */
  lemma BaseNameWithoutSeparator(path: string)
    requires forall i :: 0 <= i < |path| ==> path[i] != '/'
    ensures BaseName(path) == path
  {
  }

  /**
   The file name of `stem.ext`, when neither part holds a '/' and the
   extension holds no '.', is `stem`.
   */
  lemma FileNameDropsExtension(stem: string, ext: string)
    requires forall i :: 0 <= i < |stem| ==> stem[i] != '/'
    requires forall i :: 0 <= i < |ext| ==> ext[i] != '/' && ext[i] != '.'
    ensures FileName(stem + "." + ext) == stem
  {
    var p := stem + "." + ext;
    forall i | 0 <= i < |p|
      ensures p[i] != '/'
    {
      if i < |stem| {
        assert p[i] == stem[i];
      } else if i > |stem| {
        assert p[i] == ext[i - |stem| - 1];
      }
    }
    BaseNameWithoutSeparator(p);
    var r := FileName(p);
    assert p[|stem|] == '.';
    assert |r| == |stem|;
    assert p[..|stem|] == stem;
  }
}
