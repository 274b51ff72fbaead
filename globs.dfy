/**
 * `Glob` (src/files.rs): a user-supplied glob expression, with an optional
 * leading `!` that negates it, and the rule for matching it against a path.
 */
module Globs {
  import opened Wrappers
  import opened Paths
  import opened GlobPattern

  /** `original` is the expression without its negation marker; `glob` is it compiled. */
  datatype Glob = Glob(original: string, glob: Pattern, negate: bool)

  /** "could not parse glob '<glob>'", with the reason `Pattern::new` gave. */
  datatype ParseError = ParseError(glob: string, cause: PatternError)

  function Min(a: int, b: int): int
  {
    if a <= b then a else b
  }

  /**
   * `Glob::parse`. A leading `!` sets `negate` and is cut off, except that a
   * bare `!` is kept whole (the cut starts at `min(1, len - 1)`).
   */
  function Parse(s: string): (r: Result<Glob, ParseError>)
    ensures |s| >= 2 && s[0] == '!' ==>
      (r.Ok? ==> r.value.negate && r.value.original == s[1..]) &&
      (r.Err? ==> r.error.glob == s[1..])
    ensures (s == [] || s[0] != '!') ==>
      (r.Ok? ==> !r.value.negate && r.value.original == s) &&
      (r.Err? ==> r.error.glob == s)
    ensures r.Ok? ==> Compile(r.value.original) == Ok(r.value.glob)
    ensures r.Err? ==> Compile(r.error.glob) == Err(r.error.cause)
  {
    var negate := |s| > 0 && s[0] == '!';
    var rest := if negate then s[Min(1, |s| - 1)..] else s;
    match Compile(rest)
    case Err(e) => Err(ParseError(rest, e))
    case Ok(glob) => Ok(Glob(rest, glob, negate))
  }

  /** `str::contains("**")`: two adjacent `*` somewhere in `s`. */
  function ContainsDoubleStar(s: string): (r: bool)
    ensures r <==> exists i :: 0 <= i < |s| - 1 && s[i] == '*' && s[i + 1] == '*'
    decreases |s|
  {
    |s| >= 2 && ((s[0] == '*' && s[1] == '*') || ContainsDoubleStar(s[1..]))
  }

  /** The file name of `p` matches the pattern (false when `p` has no file name). */
  predicate FileNameMatches(glob: Pattern, p: Path)
  {
    match FileName(p)
    case Some(name) => glob.Matches(name)
    case None => false
  }

  /**
   * `Glob::matches`. An expression containing `**` is tried on the full path
   * only; any other is tried on the full path and, failing that, on the file
   * name. Negation is applied last.
   */
  function Matches(g: Glob, p: Path): (r: bool)
    ensures ContainsDoubleStar(g.original) ==> (r <==> g.negate != g.glob.Matches(p))
    ensures !ContainsDoubleStar(g.original) ==>
      (r <==> g.negate != (g.glob.Matches(p) ||
                           (FileName(p).Some? && g.glob.Matches(FileName(p).value))))
  {
    var pathOnly := ContainsDoubleStar(g.original);
    var res := g.glob.Matches(p);
    var res := if !res && !pathOnly then FileNameMatches(g.glob, p) else res;
    if g.negate then !res else res
  }

  /** Without a leading `!`, parsing is compiling: the glob is the pattern, not negated. */
  lemma ParseUnmarked(s: string, pat: Pattern)
    requires (s == [] || s[0] != '!') && Compile(s) == Ok(pat)
    ensures Parse(s) == Ok(Glob(s, pat, false))
  {
  }

  /** With a leading `!` and more after it, parsing compiles the rest and negates it. */
  lemma ParseMarked(s: string, pat: Pattern)
    requires |s| >= 2 && s[0] == '!' && Compile(s[1..]) == Ok(pat)
    ensures Parse(s) == Ok(Glob(s[1..], pat, true))
  {
  }

  /** A negated glob matches exactly the paths the same glob without negation does not. */
  lemma NegationInverts(g: Glob, p: Path)
    requires g.negate
    ensures Matches(g, p) == !Matches(g.(negate := false), p)
  {
  }

  /**
   * Parsing `!e` (for an `e` that does not itself start with `!`) gives the
   * negation of parsing `e`: it fails exactly when `e` fails, and otherwise
   * matches exactly the paths `e` does not.
   */
  lemma ParseNegated(e: string, p: Path)
    requires e != [] && e[0] != '!'
    ensures Parse("!" + e).Ok? <==> Parse(e).Ok?
    ensures Parse("!" + e).Ok? ==> Matches(Parse("!" + e).value, p) == !Matches(Parse(e).value, p)
  {
    assert ("!" + e)[1..] == e;
  }

  /** `e` does not start with `!` and has no character `Pattern::new` treats specially. */
  predicate IsPlainName(e: string)
  {
    IsLiteral(e) && (e == [] || e[0] != '!')
  }

  /** A plain expression parses to a non-negated glob of its own characters. */
  lemma ParsePlain(e: string)
    requires IsPlainName(e)
    ensures Parse(e) == Ok(Glob(e, Pattern(Literal(e)), false))
  {
    CompileLiteral(e);
  }

  /**
   * A plain glob such as `README.md` matches a path exactly when it is the
   * whole path or the path's file name.
   */
  lemma PlainGlobMatches(e: string, p: Path)
    requires IsPlainName(e)
    ensures Parse(e).Ok?
    ensures Matches(Parse(e).value, p) <==> p == e || FileName(p) == Some(e)
  {
    ParsePlain(e);
    MatchLiteral(e, p);
    if FileName(p).Some? {
      MatchLiteral(e, FileName(p).value);
    }
  }

  /** Hence a plain glob that is a file name matches that file at any depth. */
  lemma PlainGlobMatchesAnyDepth(e: string, dir: Path)
    requires IsPlainName(e) && IsNormalName(e)
    ensures Parse(e).Ok? && Matches(Parse(e).value, dir + [Separator] + e)
  {
    PlainGlobMatches(e, dir + [Separator] + e);
    FileNameOfChild(dir, e);
  }

  /**
   * A bare `!` is not an error: it is the negated literal `!`, so it matches
   * every path except `!` itself and paths whose file name is `!`.
   */
  lemma BareMarker(p: Path)
    ensures Parse("!") == Ok(Glob("!", Pattern([Char('!')]), true))
    ensures Matches(Parse("!").value, p) <==> !(p == "!" || FileName(p) == Some("!"))
  {
    assert Literal("!") == [Char('!')];
    CompileLiteral("!");
    MatchLiteral("!", p);
    if FileName(p).Some? {
      MatchLiteral("!", FileName(p).value);
    }
  }

  /**
   * Only one `!` is cut off: `!!e` is the negation of the literal `!e`, not
   * `e` negated twice. It matches every path except `!e` and paths whose file
   * name is `!e`.
   */
  lemma DoubleMarker(e: string, p: Path)
    requires IsLiteral(e)
    ensures Parse("!!" + e) == Ok(Glob("!" + e, Pattern(Literal("!" + e)), true))
    ensures Matches(Parse("!!" + e).value, p) <==> !(p == "!" + e || FileName(p) == Some("!" + e))
  {
    var x := "!" + e;
    assert ("!!" + e)[1..] == x;
    assert forall i :: 1 <= i < |x| ==> x[i] == e[i - 1];
    CompileLiteral(x);
    MatchLiteral(x, p);
    if FileName(p).Some? {
      MatchLiteral(x, FileName(p).value);
    }
  }

  /** A refused expression is reported with the text after any `!` and the reason. */
  lemma ParseErrors()
    ensures Parse("***") == Err(ParseError("***", PatternError(2, Wildcards)))
    ensures Parse("!a**") == Err(ParseError("a**", PatternError(0, RecursiveWildcards)))
    ensures Parse("[a") == Err(ParseError("[a", PatternError(0, InvalidRange)))
  {
    CompileErrors();
    assert "!a**"[1..] == "a**";
  }

  /** `*` matches every path and `!*` none. */
  lemma Star(p: Path)
    ensures Parse("*").Ok? && Matches(Parse("*").value, p)
    ensures Parse("!*").Ok? && !Matches(Parse("!*").value, p)
  {
    assert StarRunEnd("*", 0) == 1;
    assert [] + [AnySequence] == [AnySequence];
    assert CompileFrom("*", 1, [AnySequence]) == Ok(Pattern([AnySequence]));
    assert Compile("*") == Ok(Pattern([AnySequence]));
    assert Parse("*") == Ok(Glob("*", Pattern([AnySequence]), false));
    assert ("!*")[1..] == "*";
    StarMatchesAll(p);
  }
}
