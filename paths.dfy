/**
 * The parts of Rust's `std::path::Path` that file admission relies on, for
 * Unix paths held as text: the last component (`Path::file_name`) and the
 * extension (`Path::extension`).
 */
module Paths {
  import opened Wrappers

  /** A path as the text `Path::to_str` gives for it. */
  type Path = string

  const Separator: char := '/'

  /** The pieces of `p` between separators, as `str::split('/')` yields them. */
  function Split(p: string): (r: seq<string>)
    ensures |r| >= 1
    ensures forall i :: 0 <= i < |r| ==> Separator !in r[i]
    decreases |p|
  {
    if p == [] then [[]]
    else
      var init := Split(p[..|p| - 1]);
      var c := p[|p| - 1];
      if c == Separator then init + [[]]
      else init[..|init| - 1] + [init[|init| - 1] + [c]]
  }

  /** Puts the pieces back together with a separator between neighbours. */
  function Join(pieces: seq<string>): string
    requires |pieces| >= 1
  {
    if |pieces| == 1 then pieces[0]
    else Join(pieces[..|pieces| - 1]) + [Separator] + pieces[|pieces| - 1]
  }

  /** Joining after a new empty last piece adds one separator. */
  lemma JoinNewPiece(init: seq<string>)
    requires |init| >= 1
    ensures Join(init + [[]]) == Join(init) + [Separator]
  {
    assert (init + [[]])[..|init|] == init;
  }

  /** Joining after extending the last piece by `c` appends `c`. */
  lemma JoinExtendLast(init: seq<string>, c: char)
    requires |init| >= 1
    ensures Join(init[..|init| - 1] + [init[|init| - 1] + [c]]) == Join(init) + [c]
  {
    var r := init[..|init| - 1] + [init[|init| - 1] + [c]];
    if |init| > 1 {
      assert r[..|r| - 1] == init[..|init| - 1];
    }
  }

  /** Splitting loses nothing: joining the pieces gives the path back. */
  lemma {:induction false} JoinSplit(p: string)
    ensures Join(Split(p)) == p
    decreases |p|
  {
    if p != [] {
      var q := p[..|p| - 1];
      JoinSplit(q);
      assert p == q + [p[|p| - 1]];
      if p[|p| - 1] == Separator {
        JoinNewPiece(Split(q));
      } else {
        JoinExtendLast(Split(q), p[|p| - 1]);
      }
    }
  }

  /** A piece without a separator splits to itself. */
  lemma {:induction false} SplitPiece(name: string)
    requires Separator !in name
    ensures Split(name) == [name]
    decreases |name|
  {
    if name != [] {
      var q := name[..|name| - 1];
      SplitPiece(q);
      assert name == q + [name[|name| - 1]];
    }
  }

  /** Appending a separator and a piece appends exactly that piece. */
  lemma {:induction false} SplitChild(dir: string, name: string)
    requires Separator !in name
    ensures Split(dir + [Separator] + name) == Split(dir) + [name]
    decreases |name|
  {
    var p := dir + [Separator] + name;
    if name == [] {
      assert p[..|p| - 1] == dir;
    } else {
      var q := name[..|name| - 1];
      SplitChild(dir, q);
      assert p[..|p| - 1] == dir + [Separator] + q;
      assert q + [name[|name| - 1]] == name;
    }
  }

  /** A component `Path::file_name` can return: not empty, not `.` or `..`, no separator. */
  predicate IsNormalName(n: string)
  {
    n != [] && Separator !in n && n != "." && n != ".."
  }

  /** A piece that is not a component: empty (a repeated or trailing separator) or `.`. */
  predicate Ignored(piece: string)
  {
    piece == [] || piece == "."
  }

  /** `pieces[i]` is a component and every piece after it is ignored. */
  predicate IsLastComponent(pieces: seq<string>, i: int)
  {
    0 <= i < |pieces| && !Ignored(pieces[i]) && forall j :: i < j < |pieces| ==> Ignored(pieces[j])
  }

  /**
   * The last component of the pieces, as `Path::components` gives it: empty
   * pieces and `.` pieces are not components, and a last component `..` has
   * no file name. The result is the last piece that is not ignored, and there
   * is none exactly when every piece is ignored or that last piece is `..`.
   */
  function LastNormal(pieces: seq<string>): (r: Option<string>)
    ensures r.Some? ==> r.value != ".." && exists i :: IsLastComponent(pieces, i) && pieces[i] == r.value
    ensures r.None? <==> forall i :: IsLastComponent(pieces, i) ==> pieces[i] == ".."
    decreases |pieces|
  {
    if pieces == [] then None
    else
      var n := |pieces| - 1;
      var last := pieces[n];
      if Ignored(last) then
        var init := pieces[..n];
        var r := LastNormal(init);
        assert forall i :: IsLastComponent(pieces, i) <==> IsLastComponent(init, i);
        r
      else if last == ".." then
        assert forall i :: IsLastComponent(pieces, i) ==> i == n;
        None
      else
        assert IsLastComponent(pieces, n);
        Some(last)
  }

  /** `Path::file_name`: the final component, if it is a normal one. */
  function FileName(p: Path): (r: Option<string>)
    ensures r.Some? ==> IsNormalName(r.value)
  {
    LastNormal(Split(p))
  }

  /** Trailing separators and `.` components do not change the file name. */
  lemma FileNameOfIgnored(dir: Path, piece: string)
    requires Ignored(piece)
    ensures FileName(dir + [Separator] + piece) == FileName(dir)
  {
    SplitChild(dir, piece);
    var pieces := Split(dir) + [piece];
    assert pieces[..|pieces| - 1] == Split(dir);
  }

  /** A path whose last component is `..` has no file name. */
  lemma FileNameOfParent(dir: Path)
    ensures FileName(dir + [Separator] + "..") == None
  {
    SplitChild(dir, "..");
  }

  /** Neither the empty path nor the root has a file name. */
  lemma FileNameOfRoot()
    ensures FileName("") == None
    ensures FileName([Separator]) == None
  {
    FileNameOfIgnored("", "");
    assert [] + [Separator] + [] == [Separator];
  }

  /** A file name is its own file name. */
  lemma FileNameOfName(name: string)
    requires IsNormalName(name)
    ensures FileName(name) == Some(name)
  {
    SplitPiece(name);
  }

  /** The file name of `dir/name` is `name`, whatever `dir` is. */
  lemma FileNameOfChild(dir: Path, name: string)
    requires IsNormalName(name)
    ensures FileName(dir + [Separator] + name) == Some(name)
  {
    SplitChild(dir, name);
    var pieces := Split(dir) + [name];
    assert pieces[|pieces| - 1] == name;
  }

  /** The index of the last `.` in `n`, if there is one. */
  function LastDot(n: string): (r: Option<nat>)
    ensures r.None? <==> '.' !in n
    ensures r.Some? ==> r.value < |n| && n[r.value] == '.' && '.' !in n[r.value + 1..]
    decreases |n|
  {
    if n == [] then None
    else if n[|n| - 1] == '.' then Some(|n| - 1)
    else
      var r := LastDot(n[..|n| - 1]);
      assert n == n[..|n| - 1] + [n[|n| - 1]];
      r
  }

  /** `e` is the text after the last `.` of `n`, and that `.` is not the first character. */
  predicate EndsWithExtension(n: string, e: string)
  {
    |e| + 2 <= |n| && n[|n| - |e| - 1] == '.' && n[|n| - |e|..] == e && '.' !in e
  }

  /**
   * `Path::extension`: the text after the last `.` of the file name. There is
   * none when there is no file name, when the name has no `.`, or when its
   * last `.` is its first character (as in `.gitignore`).
   */
  function Extension(p: Path): (r: Option<string>)
    ensures r.Some? ==> FileName(p).Some? && EndsWithExtension(FileName(p).value, r.value)
    ensures r.None? <==>
      FileName(p).None? || forall k :: 0 < k < |FileName(p).value| ==> FileName(p).value[k] != '.'
  {
    match FileName(p)
    case None => None
    case Some(n) =>
      match LastDot(n)
      case None => None
      case Some(k) =>
        if k == 0 then None
        else
          assert n[|n| - |n[k + 1..]|..] == n[k + 1..];
          Some(n[k + 1..])
  }

  /** A `.` with no `.` after it is the last one. */
  lemma LastDotAt(n: string, k: nat)
    requires k < |n| && n[k] == '.' && '.' !in n[k + 1..]
    ensures LastDot(n) == Some(k)
  {
    assert n[k] in n;
  }

  /** The extension of `dir/stem.ext` is `ext` when `ext` has no `.` and `stem` is not empty. */
  lemma ExtensionOfChild(dir: Path, stem: string, ext: string)
    requires stem != [] && '.' !in ext && IsNormalName(stem + "." + ext)
    ensures Extension(dir + [Separator] + stem + "." + ext) == Some(ext)
  {
    var name := stem + "." + ext;
    assert dir + [Separator] + stem + "." + ext == dir + [Separator] + name;
    FileNameOfChild(dir, name);
    var k := |stem|;
    assert name[k] == '.' && name[k + 1..] == ext;
    LastDotAt(name, k);
  }
}
