/**
 * The two admission filters of src/files.rs: every glob must match (AND),
 * and the extension must be one of the listed file types (OR). An empty
 * list accepts every path.
 */
module Filters {
  import opened Wrappers
  import opened Paths
  import opened Globs

  /** `globs.iter().all(|g| g.matches(path))`. */
  function AllGlobsMatch(p: Path, globs: seq<Glob>): (r: bool)
    ensures r <==> forall i :: 0 <= i < |globs| ==> Matches(globs[i], p)
    decreases |globs|
  {
    |globs| == 0 || (Matches(globs[0], p) && AllGlobsMatch(p, globs[1..]))
  }

  /** `globs_match`: true when there are no globs, otherwise when every glob matches. */
  function GlobsMatch(p: Path, globs: seq<Glob>): (r: bool)
    ensures globs == [] ==> r
    ensures r <==> forall i :: 0 <= i < |globs| ==> Matches(globs[i], p)
  {
    |globs| == 0 || AllGlobsMatch(p, globs)
  }

  /** One rejecting glob rejects the path, whatever the others say. */
  lemma OneRejectionRejects(p: Path, globs: seq<Glob>, i: nat)
    requires i < |globs| && !Matches(globs[i], p)
    ensures !GlobsMatch(p, globs)
  {
  }

  /** The path's extension is exactly `ft` (none never equals anything). */
  predicate ExtensionIs(p: Path, ft: string)
  {
    match Extension(p)
    case Some(ext) => ext == ft
    case None => false
  }

  /** `fts.iter().any(|ft| ...)`. */
  function AnyTypeMatches(p: Path, fts: seq<string>): (r: bool)
    ensures r <==> exists i :: 0 <= i < |fts| && ExtensionIs(p, fts[i])
    decreases |fts|
  {
    |fts| > 0 && (ExtensionIs(p, fts[0]) || AnyTypeMatches(p, fts[1..]))
  }

  /**
   * `fts_match`: true when there are no file types, otherwise when the path
   * has an extension that equals one of them, character for character.
   */
  function FtsMatch(p: Path, fts: seq<string>): (r: bool)
    ensures fts == [] ==> r
    ensures fts != [] ==> (r <==> Extension(p).Some? && Extension(p).value in fts)
  {
    |fts| == 0 || AnyTypeMatches(p, fts)
  }

  /** A path without an extension passes only an empty list of file types. */
  lemma NoExtensionRejected(p: Path, fts: seq<string>)
    requires Extension(p).None?
    ensures FtsMatch(p, fts) <==> fts == []
  {
  }

  /** `dir/stem.ext` passes the file types exactly when the list is empty or names `ext`. */
  lemma FtsMatchOfChild(dir: Path, stem: string, ext: string, fts: seq<string>)
    requires stem != [] && '.' !in ext && IsNormalName(stem + "." + ext)
    ensures FtsMatch(dir + [Separator] + stem + "." + ext, fts) <==> fts == [] || ext in fts
  {
    ExtensionOfChild(dir, stem, ext);
  }
}
