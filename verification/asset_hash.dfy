/**
 * The `ignore` pattern given to asset fingerprinting in the build
 * configuration, `/work\/|javascripts\/(lang|prett)/`: an asset whose path
 * the pattern matches anywhere keeps its file name; every other asset is
 * renamed with a content hash.
 */
module AssetHash {
  import opened Strings

  const WorkDir: string := "work/"
  const ScriptsDir: string := "javascripts/"

  /**
   * The pattern matched at index `i` of `path`: either `work/`, or
   * `javascripts/` followed by one of the alternatives `lang` and `prett`.
   */
  predicate MatchesAt(path: string, i: int) {
    || OccursAt(WorkDir, path, i)
    || (OccursAt(ScriptsDir, path, i) &&
        (OccursAt("lang", path, i + |ScriptsDir|) || OccursAt("prett", path, i + |ScriptsDir|)))
  }

  /** The regular expression is unanchored: a match may start at any index. */
  predicate Ignored(path: string) {
    exists i :: 0 <= i <= |path| && MatchesAt(path, i)
  }

  /**
   * A path is left unhashed exactly when it contains `work/`,
   * `javascripts/lang` or `javascripts/prett`.
   */
  lemma IgnoredIffContains(path: string)
    ensures Ignored(path) <==>
      Contains(path, "work/") || Contains(path, "javascripts/lang") || Contains(path, "javascripts/prett")
  {
    assert ScriptsDir + "lang" == "javascripts/lang";
    assert ScriptsDir + "prett" == "javascripts/prett";
    forall i | 0 <= i <= |path|
      ensures MatchesAt(path, i) <==>
        OccursAt("work/", path, i) || OccursAt("javascripts/lang", path, i) ||
        OccursAt("javascripts/prett", path, i)
    {
      OccursAtConcat(ScriptsDir, "lang", path, i);
      OccursAtConcat(ScriptsDir, "prett", path, i);
    }
  }

  /** Tries the pattern at each index from the left, as a regex engine's search does. */
  method Search(path: string) returns (ignored: bool)
    ensures ignored <==> Ignored(path)
  {
    var i := 0;
    while i <= |path|
      invariant 0 <= i <= |path| + 1
      invariant forall j :: 0 <= j < i ==> !MatchesAt(path, j)
    {
      if MatchesAt(path, i) {
        return true;
      }
      i := i + 1;
    }
    return false;
  }

  /** The assets that get a fingerprinted name. */
  function Fingerprinted(paths: seq<string>): (r: seq<string>)
    ensures forall p :: p in r <==> p in paths && !Ignored(p)
    ensures |r| <= |paths|
  {
    if |paths| == 0 then []
    else if Ignored(paths[0]) then Fingerprinted(paths[1..])
    else [paths[0]] + Fingerprinted(paths[1..])
  }
}
