/**
 * A reconstruction of the `glob` crate's `Pattern`, which `Glob` wraps:
 * `Pattern::new` turns a glob expression into tokens or reports why it is
 * malformed, and `Pattern::matches` decides whether a text matches, with the
 * default options (case-sensitive, `*` and `?` may match `/`, no special
 * rule for a leading `.`). Only `/` is a separator.
 */
module GlobPattern {
  import opened Wrappers

  datatype CharSpecifier = SingleChar(c: char) | CharRange(lo: char, hi: char)

  datatype Token =
    | Char(c: char)                          // a literal character
    | AnyChar                                // `?`
    | AnySequence                            // `*`
    | AnyRecursiveSequence                   // `**` as a whole path component
    | AnyWithin(specs: seq<CharSpecifier>)   // `[...]`
    | AnyExcept(specs: seq<CharSpecifier>)   // `[!...]`

  /** Why `Pattern::new` refused an expression. */
  datatype PatternErrorKind =
    | Wildcards            // three or more `*` in a row
    | RecursiveWildcards   // `**` that is not a whole path component
    | InvalidRange         // a `[` without a well-formed class

  datatype PatternError = PatternError(pos: nat, kind: PatternErrorKind)

  /** A compiled glob expression. */
  datatype Pattern = Pattern(tokens: seq<Token>)
  {
    /** `Pattern::matches`: the whole of `s` matches the expression. */
    predicate Matches(s: string)
    {
      MatchTokens(tokens, s)
    }
  }

  predicate IsSeparator(c: char)
  {
    c == '/'
  }

  /** The end of the run of `*` that starts at `i`. */
  function StarRunEnd(s: string, i: nat): (j: nat)
    requires i <= |s|
    ensures i <= j <= |s|
    ensures forall k :: i <= k < j ==> s[k] == '*'
    ensures j == |s| || s[j] != '*'
    decreases |s| - i
  {
    if i == |s| || s[i] != '*' then i else StarRunEnd(s, i + 1)
  }

  /** The first index at or after `from` that holds `c`. */
  function IndexOf(s: string, c: char, from: nat): (r: Option<nat>)
    requires from <= |s|
    ensures r.Some? ==> from <= r.value < |s| && s[r.value] == c
    ensures r.Some? ==> forall k :: from <= k < r.value ==> s[k] != c
    ensures r.None? ==> forall k :: from <= k < |s| ==> s[k] != c
    decreases |s| - from
  {
    if from == |s| then None
    else if s[from] == c then Some(from)
    else IndexOf(s, c, from + 1)
  }

  /** The members of a character class: `a-z` is a range, anything else a single character. */
  function Specifiers(cs: string): seq<CharSpecifier>
    decreases |cs|
  {
    if cs == [] then []
    else if 3 <= |cs| && cs[1] == '-' then [CharRange(cs[0], cs[2])] + Specifiers(cs[3..])
    else [SingleChar(cs[0])] + Specifiers(cs[1..])
  }

  /** Adds a `**` token unless the previous one already is (a leading pair is kept). */
  function PushRecursive(acc: seq<Token>): seq<Token>
  {
    if |acc| > 1 && acc[|acc| - 1] == AnyRecursiveSequence then acc
    else acc + [AnyRecursiveSequence]
  }

  /**
   * Tokenises `s[i..]` after the tokens `acc` already read from `s[..i]`.
   * The tokens read so far are kept, each further token uses up at least one
   * character, and a refusal points into `s`: at a `*` for a run of three, at
   * the `[` of a malformed class.
   */
  function CompileFrom(s: string, i: nat, acc: seq<Token>): (r: Result<Pattern, PatternError>)
    requires i <= |s|
    ensures r.Ok? ==> acc <= r.value.tokens && |r.value.tokens| <= |acc| + |s| - i
    ensures r.Err? ==> r.error.pos < |s|
    ensures r.Err? && r.error.kind == Wildcards ==> s[r.error.pos] == '*'
    ensures r.Err? && r.error.kind == InvalidRange ==> s[r.error.pos] == '['
    decreases |s| - i
  {
    if i == |s| then Ok(Pattern(acc))
    else if s[i] == '?' then CompileFrom(s, i + 1, acc + [AnyChar])
    else if s[i] == '*' then
      var j := StarRunEnd(s, i);
      if j - i > 2 then Err(PatternError(i + 2, Wildcards))
      else if j - i == 2 then
        if i == 0 || IsSeparator(s[i - 1]) then
          if j < |s| && IsSeparator(s[j]) then CompileFrom(s, j + 1, PushRecursive(acc))
          else if j == |s| then CompileFrom(s, j, PushRecursive(acc))
          else Err(PatternError(j, RecursiveWildcards))
        else Err(PatternError(i - 1, RecursiveWildcards))
      else CompileFrom(s, j, acc + [AnySequence])
    else if s[i] == '[' then
      if i + 4 <= |s| && s[i + 1] == '!' then
        match IndexOf(s, ']', i + 3)
        case Some(k) => CompileFrom(s, k + 1, acc + [AnyExcept(Specifiers(s[i + 2..k]))])
        case None => Err(PatternError(i, InvalidRange))
      else if i + 3 <= |s| && s[i + 1] != '!' then
        match IndexOf(s, ']', i + 2)
        case Some(k) => CompileFrom(s, k + 1, acc + [AnyWithin(Specifiers(s[i + 1..k]))])
        case None => Err(PatternError(i, InvalidRange))
      else Err(PatternError(i, InvalidRange))
    else CompileFrom(s, i + 1, acc + [Char(s[i])])
  }

  /**
   * `Pattern::new`. A compiled pattern has at most one token per character,
   * and a refusal points at a position of `s`.
   */
  function Compile(s: string): (r: Result<Pattern, PatternError>)
    ensures r.Ok? ==> |r.value.tokens| <= |s|
    ensures r.Err? ==> r.error.pos < |s|
    ensures r.Err? && r.error.kind == Wildcards ==> s[r.error.pos] == '*'
    ensures r.Err? && r.error.kind == InvalidRange ==> s[r.error.pos] == '['
  {
    CompileFrom(s, 0, [])
  }

  predicate InSpecifiers(specs: seq<CharSpecifier>, c: char)
  {
    exists i :: 0 <= i < |specs| && SpecifierHolds(specs[i], c)
  }

  predicate SpecifierHolds(spec: CharSpecifier, c: char)
  {
    match spec
    case SingleChar(d) => c == d
    case CharRange(lo, hi) => lo <= c <= hi
  }

  /** Whether a token that stands for one character accepts `c`. */
  predicate OneCharAccepts(t: Token, c: char)
  {
    match t
    case Char(d) => c == d
    case AnyChar => true
    case AnyWithin(specs) => InSpecifiers(specs, c)
    case AnyExcept(specs) => !InSpecifiers(specs, c)
    case AnySequence => false
    case AnyRecursiveSequence => false
  }

  /**
   * The whole of `s` matches the tokens. `*` takes any prefix of `s`; `**`
   * takes nothing, a prefix ending just after a separator, or all of `s`.
   */
  predicate MatchTokens(ts: seq<Token>, s: string)
    decreases |ts|, |s|, 1
  {
    if ts == [] then s == []
    else if ts[0] == AnySequence then
      MatchTokens(ts[1..], s) || (s != [] && MatchTokens(ts, s[1..]))
    else if ts[0] == AnyRecursiveSequence then
      MatchTokens(ts[1..], s) || AfterSeparator(ts[1..], s) || MatchTokens(ts[1..], [])
    else
      s != [] && OneCharAccepts(ts[0], s[0]) && MatchTokens(ts[1..], s[1..])
  }

  /** Some separator in `s` is followed by a text that matches `rest`. */
  predicate AfterSeparator(rest: seq<Token>, s: string)
    decreases |rest| + 1, |s|, 0
  {
    s != [] && ((IsSeparator(s[0]) && MatchTokens(rest, s[1..])) || AfterSeparator(rest, s[1..]))
  }

  /** No character of `s` is special to `Pattern::new`. */
  predicate IsLiteral(s: string)
  {
    forall i :: 0 <= i < |s| ==> s[i] != '*' && s[i] != '?' && s[i] != '['
  }

  /** The tokens of a literal text: one `Char` per character. */
  function Literal(s: string): (ts: seq<Token>)
    ensures |ts| == |s|
    ensures forall i :: 0 <= i < |s| ==> ts[i] == Char(s[i])
  {
    seq(|s|, i requires 0 <= i < |s| => Char(s[i]))
  }

  lemma {:induction false} CompileFromLiteral(s: string, i: nat, acc: seq<Token>)
    requires i <= |s| && IsLiteral(s)
    ensures CompileFrom(s, i, acc) == Ok(Pattern(acc + Literal(s[i..])))
    decreases |s| - i
  {
    if i == |s| {
      assert acc + Literal(s[i..]) == acc;
    } else {
      CompileFromLiteral(s, i + 1, acc + [Char(s[i])]);
      assert acc + [Char(s[i])] + Literal(s[i + 1..]) == acc + Literal(s[i..]);
    }
  }

  /** An expression without `*`, `?` or `[` compiles to its own characters. */
  lemma CompileLiteral(s: string)
    requires IsLiteral(s)
    ensures Compile(s) == Ok(Pattern(Literal(s)))
  {
    CompileFromLiteral(s, 0, []);
    assert [] + Literal(s[0..]) == Literal(s);
  }

  /** A literal pattern matches exactly its own text. */
  lemma {:induction false} MatchLiteral(s: string, t: string)
    ensures MatchTokens(Literal(s), t) <==> t == s
    decreases |s|
  {
    if s != [] {
      var ts := Literal(s);
      assert ts[1..] == Literal(s[1..]);
      if t != [] {
        MatchLiteral(s[1..], t[1..]);
        if t[0] == s[0] && t[1..] == s[1..] {
          assert t == [t[0]] + t[1..] && s == [s[0]] + s[1..];
        }
      }
    }
  }

  /** `*` matches every text. */
  lemma {:induction false} StarMatchesAll(t: string)
    ensures MatchTokens([AnySequence], t)
    decreases |t|
  {
    if t != [] {
      StarMatchesAll(t[1..]);
    }
  }

  /** `**` matches every text. */
  lemma RecursiveMatchesAll(t: string)
    ensures MatchTokens([AnyRecursiveSequence], t)
  {
    assert [AnyRecursiveSequence][1..] == [];
  }

  /** A run of ordinary characters compiles to one `Char` token each. */
  lemma {:induction false} CompileFromLiteralRun(s: string, i: nat, j: nat, acc: seq<Token>)
    requires i <= j <= |s| && IsLiteral(s[i..j])
    ensures CompileFrom(s, i, acc) == CompileFrom(s, j, acc + Literal(s[i..j]))
    decreases j - i
  {
    if i == j {
      assert acc + Literal(s[i..j]) == acc;
    } else {
      assert s[i..j][0] == s[i];
      assert s[i + 1..j] == s[i..j][1..];
      CompileFromLiteralRun(s, i + 1, j, acc + [Char(s[i])]);
      assert acc + [Char(s[i])] + Literal(s[i + 1..j]) == acc + Literal(s[i..j]);
    }
  }

  /** A literal prefix of the tokens must be a prefix of the text. */
  lemma {:induction false} MatchLiteralPrefix(w: string, more: seq<Token>, t: string)
    ensures MatchTokens(Literal(w) + more, t) <==>
      |w| <= |t| && t[..|w|] == w && MatchTokens(more, t[|w|..])
    decreases |w|
  {
    var ts := Literal(w) + more;
    if w == [] {
      assert ts == more;
      assert t[..0] == w && t[0..] == t;
    } else {
      assert ts[0] == Char(w[0]);
      assert ts[1..] == Literal(w[1..]) + more;
      if t != [] {
        MatchLiteralPrefix(w[1..], more, t[1..]);
        if |w| <= |t| {
          assert t[1..][|w| - 1..] == t[|w|..];
          assert t[..|w|] == [t[0]] + t[1..][..|w| - 1];
          assert w == [w[0]] + w[1..];
        }
      }
    }
  }

  /** `*` followed by `rest` matches any text ending in one that `rest` matches. */
  lemma {:induction false} StarSkips(rest: seq<Token>, u: string, t: string)
    requires MatchTokens(rest, t)
    ensures MatchTokens([AnySequence] + rest, u + t)
    decreases |u|
  {
    var ts := [AnySequence] + rest;
    assert ts[1..] == rest;
    if u == [] {
      assert u + t == t;
    } else {
      StarSkips(rest, u[1..], t);
      assert (u + t)[1..] == u[1..] + t;
    }
  }

  /** A separator followed by a text that `rest` matches can be found after any prefix. */
  lemma {:induction false} AfterSeparatorOf(rest: seq<Token>, u: string, t: string)
    requires MatchTokens(rest, t)
    ensures AfterSeparator(rest, u + ['/'] + t)
    decreases |u|
  {
    var s := u + ['/'] + t;
    if u == [] {
      assert s[1..] == t;
    } else {
      AfterSeparatorOf(rest, u[1..], t);
      assert s[1..] == u[1..] + ['/'] + t;
    }
  }

  /** Characters other than the separator can be passed over when looking for one. */
  lemma {:induction false} AfterSeparatorSkips(rest: seq<Token>, u: string, v: string)
    requires '/' !in u
    ensures AfterSeparator(rest, u + v) <==> AfterSeparator(rest, v)
    decreases |u|
  {
    if u != [] {
      assert (u + v)[1..] == u[1..] + v;
      AfterSeparatorSkips(rest, u[1..], v);
    } else {
      assert u + v == v;
    }
  }

  /** Found at the front: the text after the separator, or a later separator. */
  lemma AfterSeparatorFront(rest: seq<Token>, v: string)
    ensures AfterSeparator(rest, ['/'] + v) <==> MatchTokens(rest, v) || AfterSeparator(rest, v)
  {
    assert (['/'] + v)[1..] == v;
  }

  /** A lone `*` becomes an `AnySequence` token. */
  lemma CompileFromStar(s: string, i: nat, acc: seq<Token>)
    requires i < |s| && s[i] == '*' && (i + 1 == |s| || s[i + 1] != '*')
    ensures CompileFrom(s, i, acc) == CompileFrom(s, i + 1, acc + [AnySequence])
  {
    assert StarRunEnd(s, i + 1) == i + 1;
  }

  /** `**` that forms a whole component becomes an `AnyRecursiveSequence` token, taking a following separator with it. */
  lemma CompileFromRecursive(s: string, i: nat, acc: seq<Token>)
    requires i + 2 <= |s| && s[i] == '*' && s[i + 1] == '*'
    requires i == 0 || IsSeparator(s[i - 1])
    requires i + 2 == |s| || IsSeparator(s[i + 2])
    ensures CompileFrom(s, i, acc) ==
      CompileFrom(s, if i + 2 == |s| then i + 2 else i + 3, PushRecursive(acc))
  {
    assert StarRunEnd(s, i + 2) == i + 2;
    assert StarRunEnd(s, i) == i + 2;
  }

  /** `**` followed by `rest` matches a text that has a separator followed by one `rest` matches. */
  lemma RecursiveSkips(rest: seq<Token>, u: string, t: string)
    requires MatchTokens(rest, t)
    ensures MatchTokens([AnyRecursiveSequence] + rest, u + ['/'] + t)
  {
    AfterSeparatorOf(rest, u, t);
    assert ([AnyRecursiveSequence] + rest)[1..] == rest;
  }

  /** `**` followed by `rest` fails when `rest` matches neither the text, nor any text after a separator in it, nor the empty text. */
  lemma RecursiveFails(rest: seq<Token>, s: string)
    requires !MatchTokens(rest, s) && !AfterSeparator(rest, s) && !MatchTokens(rest, [])
    ensures !MatchTokens([AnyRecursiveSequence] + rest, s)
  {
    assert ([AnyRecursiveSequence] + rest)[1..] == rest;
  }

  /** Looking for a separator in `u/v`, where `u` has none: the one after `u`, or one in `v`. */
  lemma AfterSeparatorStep(rest: seq<Token>, u: string, v: string)
    requires '/' !in u
    ensures AfterSeparator(rest, u + ['/'] + v) <==> MatchTokens(rest, v) || AfterSeparator(rest, v)
  {
    assert u + ['/'] + v == u + (['/'] + v);
    AfterSeparatorSkips(rest, u, ['/'] + v);
    AfterSeparatorFront(rest, v);
  }

  // `**/w`, for a literal `w`, compiles to `**` then the characters of `w`.
  lemma CompileUnderAny(w: string)
    requires IsLiteral(w)
    ensures Compile("**/" + w) == Ok(Pattern([AnyRecursiveSequence] + Literal(w)))
  {
    var s := "**/" + w;
    CompileFromRecursive(s, 0, []);
    assert PushRecursive([]) == [AnyRecursiveSequence];
    assert s[3..|s|] == w;
    CompileFromLiteralRun(s, 3, |s|, [AnyRecursiveSequence]);
  }

  // `**/w/**`, for a literal `w`, compiles to `**`, the characters of `w/`, then `**`.
  lemma CompileWithin(w: string)
    requires IsLiteral(w)
    ensures Compile("**/" + w + "/**") ==
      Ok(Pattern([AnyRecursiveSequence] + Literal(w + "/") + [AnyRecursiveSequence]))
  {
    var s := "**/" + w + "/**";
    var n := |w|;
    var a := [AnyRecursiveSequence] + Literal(w + "/");
    forall k | 0 <= k < n + 1
      ensures (w + "/")[k] != '*' && (w + "/")[k] != '?' && (w + "/")[k] != '['
    {
      if k < n {
        assert (w + "/")[k] == w[k];
      }
    }
    CompileFromRecursive(s, 0, []);
    assert PushRecursive([]) == [AnyRecursiveSequence];
    assert s[3..n + 4] == w + "/";
    CompileFromLiteralRun(s, 3, n + 4, [AnyRecursiveSequence]);
    assert s[n + 3] == '/' && s[n + 4] == '*' && s[n + 5] == '*' && |s| == n + 6;
    CompileFromRecursive(s, n + 4, a);
    assert a[|a| - 1] == Char('/');
  }

  /**
   * The three ways `Pattern::new` refuses an expression: a run of three `*`,
   * a `**` that does not stand alone as a component (on either side), and a
   * `[` with no class after it.
   */
  lemma CompileErrors()
    ensures Compile("***") == Err(PatternError(2, Wildcards))
    ensures Compile("a**") == Err(PatternError(0, RecursiveWildcards))
    ensures Compile("**a") == Err(PatternError(2, RecursiveWildcards))
    ensures Compile("[a") == Err(PatternError(0, InvalidRange))
  {
    assert StarRunEnd("***", 0) == 3;
    assert StarRunEnd("a**", 1) == 3;
    assert StarRunEnd("**a", 0) == 2;
  }
}
