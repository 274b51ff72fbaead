# File admission in `summarize`

`summarize` walks a directory and hands the files it finds to a language
model. The part modelled here is the logic in `src/files.rs` that decides
which walked entries become files:

- **`Glob`**: a user-supplied glob expression with an optional leading `!`
  that negates it. `Glob::parse` strips the marker and compiles the rest.
  `Glob::matches` tries the full path and, unless the expression contains
  `**`, the file name as well. Negation is applied last.
- **The two filters**:
  - `globs_match`: every glob must accept the path (AND);
  - `fts_match`: the path's extension must equal one of the listed file types (OR);
  - either list, when empty, accepts every path.
- **`find` and `IntoIter::next`**: a cursor over the walk of a directory.
  It passes walk errors through, skips directories and filtered-out
  entries, and returns the read of the first admitted file.

Modules:

- `Wrappers`: `Option` and `Result`.
- `Paths`: paths as strings, with `Path::file_name` and `Path::extension`.
- `GlobPattern`: a small concrete reconstruction of the `glob` crate's
  `Pattern::new` and `Pattern::matches`, so that the unit tests can be stated.
- `Globs`: `Glob`, `Glob::parse` and `Glob::matches`.
- `Filters`: `globs_match` and `fts_match`.
- `Files`: the walk, the reader, a specification `Items` of everything the
  iterator yields, the class `FileIter` (fields of `IntoIter` plus a cursor)
  with its `Next` method, and `Find`.
- `GlobTests`: the unit tests at `src/files.rs:142-175`, stated as lemmas.
- `FileTests`: two worked walks through the iterator.

Three inputs behave in ways one might not expect:

- **A bare `!` is accepted.** `Glob::parse("!")` gives the negated literal
  pattern `!`, because the cut starts at `min(1, len - 1) = 0`.
- **An empty expression is accepted.** It compiles to the empty pattern,
  which matches only the empty text.
- **Only one `!` is cut off.** `!!x` is the negation of the literal pattern
  `!x`, not `x` negated twice.

## Model

| member | source | states |
|---|---|---|
| Globs.Parse | src/files.rs:21-30 | input `!x` (two or more characters): the glob is negated and its original and any error name `x`; input without `!`: not negated, original and error name the input; an `Ok` holds exactly what `Pattern::new` gives for the original, an `Err` carries the reason `Pattern::new` gave |
| Globs.ParseUnmarked | src/files.rs:21-29 | without a leading `!`, parsing succeeds exactly with the compiled pattern, not negated, original = input |
| Globs.ParseMarked | src/files.rs:23-29 | with a leading `!` and more after it, parsing compiles the rest and sets `negate` |
| Globs.BareMarker | src/files.rs:23-29 | `"!"` parses to the negated literal pattern `!`; it matches every path except `!` and paths whose file name is `!` |
| Globs.DoubleMarker | src/files.rs:23-29 | `!!e`, for a literal `e`, is the negated literal `!e`: it matches every path except `!e` and paths whose file name is `!e` |
| Globs.ParseErrors | src/files.rs:27 | a refused expression gives an error naming the text after any `!`, with the reason `Pattern::new` gave |
| Globs.ContainsDoubleStar | src/files.rs:33 | true exactly when two adjacent `*` occur somewhere in the text |
| Globs.Matches | src/files.rs:31-43 | with `**` in the original, the result is the full-path match, inverted when negated; without `**`, it is full-path match OR file-name match, false when there is no file name, inverted when negated |
| Globs.NegationInverts | src/files.rs:42 | a negated glob matches exactly the paths the same glob without negation does not |
| Globs.ParseNegated | src/files.rs:21-43 | `!e` parses exactly when `e` does, and matches exactly the paths `e` does not |
| Globs.ParsePlain | src/files.rs:21-29 | a name with no `*`, `?`, `[` or leading `!` parses to its own characters, not negated |
| Globs.PlainGlobMatches | src/files.rs:31-43 | a plain glob matches a path exactly when it is the whole path or the path's file name |
| Globs.PlainGlobMatchesAnyDepth | src/files.rs:34-41 | a plain glob naming a file matches that file under any directory (the file-name fallback) |
| Globs.Star | src/files.rs:143-152 | `*` matches every path and `!*` matches none |
| Filters.AllGlobsMatch | src/files.rs:121 | true exactly when every glob of the list matches the path |
| Filters.GlobsMatch | src/files.rs:119-122 | true for no globs; otherwise true exactly when every glob matches |
| Filters.OneRejectionRejects | src/files.rs:119-122 | one glob that rejects the path makes the filter reject it, whatever the others say |
| Filters.AnyTypeMatches | src/files.rs:127-132 | true exactly when some listed type equals the path's extension |
| Filters.FtsMatch | src/files.rs:124-133 | true for no types; otherwise true exactly when the path has an extension and it is one of the types, character for character |
| Filters.NoExtensionRejected | src/files.rs:124-133 | a path with no extension passes exactly when the list of types is empty |
| Filters.FtsMatchOfChild | src/files.rs:124-133 | `dir/stem.ext` passes exactly when the list is empty or contains `ext` |
| Paths.Split | src/files.rs:37 | the pieces between separators: at least one, none containing a separator |
| Paths.JoinSplit | src/files.rs:37 | splitting a path loses nothing: joining the pieces gives the path back |
| Paths.SplitChild | src/files.rs:37 | the pieces of `dir/name` are those of `dir` followed by `name` |
| Paths.LastNormal | src/files.rs:37 | the result is the last piece that is neither empty nor `.`, and never `..`; there is none exactly when no such piece exists or it is `..` |
| Paths.FileName | src/files.rs:37 | a file name, when there is one, is a normal component without separators |
| Paths.FileNameOfIgnored | src/files.rs:37 | a trailing separator or `.` component does not change the file name (`a/b/` and `a/b/.` have the file name of `a/b`) |
| Paths.FileNameOfParent | src/files.rs:37 | a path ending in the component `..` has no file name |
| Paths.FileNameOfRoot | src/files.rs:37 | neither the empty path nor `/` has a file name |
| Paths.FileNameOfName | src/files.rs:37 | a normal name is its own file name |
| Paths.FileNameOfChild | src/files.rs:37 | the file name of `dir/name` is `name` whatever `dir` is |
| Paths.LastDot | src/files.rs:128 | finds the last `.` of a name, and finds none exactly when the name has no `.` |
| Paths.LastDotAt | src/files.rs:128 | a `.` with no `.` after it is the one found |
| Paths.Extension | src/files.rs:128 | a found extension is the text after the last `.` of the file name, and that `.` is not the first character; there is none exactly when there is no file name or no `.` after its first character |
| Paths.ExtensionOfChild | src/files.rs:128 | the extension of `dir/stem.ext` is `ext` |
| GlobPattern.StarRunEnd | src/files.rs:27 | the end of a run of `*`: every character before it is `*`, the one at it is not |
| GlobPattern.IndexOf | src/files.rs:27 | the first position from a start that holds a character, and none when there is no such position |
| GlobPattern.CompileFrom | src/files.rs:27 | the tokeniser of `Pattern::new`: the tokens read so far stay a prefix of the result, each further token uses up at least one character, and a refusal points into the text, at a `*` for `Wildcards` and at the `[` for `InvalidRange`; which tokens it produces is stated by the lemmas below |
| GlobPattern.Compile | src/files.rs:27 | `Pattern::new`: at most one token per character of the expression, and a refusal points at a position of it, at a `*` or `[` as its kind says |
| GlobPattern.CompileLiteral | src/files.rs:27 | an expression without special characters compiles to its own characters |
| GlobPattern.CompileFromLiteralRun | src/files.rs:27 | a run of ordinary characters compiles to one token each |
| GlobPattern.CompileFromStar | src/files.rs:27 | a lone `*` compiles to `AnySequence` |
| GlobPattern.CompileFromRecursive | src/files.rs:27 | a `**` forming a whole component compiles to `AnyRecursiveSequence`, with the separator after it |
| GlobPattern.CompileUnderAny | src/files.rs:27 | `**/w`, for a literal `w`, compiles to `**` followed by the characters of `w` |
| GlobPattern.CompileWithin | src/files.rs:27 | `**/w/**`, for a literal `w`, compiles to `**`, the characters of `w/`, then `**` |
| GlobPattern.CompileErrors | src/files.rs:27 | `***` is refused as `Wildcards`, `a**` and `**a` as `RecursiveWildcards`, and `[a` as `InvalidRange`, each at its position |
| GlobPattern.MatchLiteral | src/files.rs:34 | a literal pattern matches exactly its own text |
| GlobPattern.MatchLiteralPrefix | src/files.rs:34 | a literal prefix of the pattern must be a prefix of the text, with the rest matching the rest |
| GlobPattern.MatchTokens | src/files.rs:34 | no contract; `Pattern::matches` over tokens: a one-character token takes one accepted character, `*` any run, `**` nothing, a stretch ending after a separator, or everything; see `MatchLiteral`, `StarMatchesAll`, `RecursiveSkips`, `RecursiveFails` |
| GlobPattern.AfterSeparator | src/files.rs:34 | no contract; some separator in the text is followed by a match of the rest; see `AfterSeparatorOf`, `AfterSeparatorSkips`, `AfterSeparatorFront`, `AfterSeparatorStep` |
| GlobPattern.Pattern.Matches | src/files.rs:34-39 | no contract; `Pattern::matches` and `matches_path` on the path text, the whole text against the tokens |
| GlobPattern.StarMatchesAll | src/files.rs:34 | `*` matches every text, separators included |
| GlobPattern.RecursiveMatchesAll | src/files.rs:34 | `**` matches every text |
| GlobPattern.StarSkips | src/files.rs:34 | `*` then `rest` matches any text ending in one that `rest` matches |
| GlobPattern.RecursiveSkips | src/files.rs:34 | `**` then `rest` matches any text with a separator followed by one that `rest` matches |
| GlobPattern.RecursiveFails | src/files.rs:34 | `**` then `rest` fails when `rest` matches neither the text, nor any text after a separator, nor the empty text |
| GlobPattern.AfterSeparatorOf | src/files.rs:34 | a separator followed by a text `rest` matches is found after any prefix |
| GlobPattern.AfterSeparatorSkips | src/files.rs:34 | characters other than the separator are passed over when looking for one |
| GlobPattern.AfterSeparatorFront | src/files.rs:34 | a separator at the front is followed by a match of `rest`, or another separator is |
| GlobPattern.AfterSeparatorStep | src/files.rs:34 | in `u/v` with no separator in `u`, the candidate texts are `v` and those after a separator in `v` |
| Files.NextStop | src/files.rs:88-104 | the first position at or after the cursor holding a walk error or an admitted entry, or the end of the walk; nothing in between stops |
| Files.Admitted | src/files.rs:95-104 | no contract; an entry is kept when it is not a directory and passes `fts_match` and `globs_match`; see `NoFiltersAdmitFiles`, `FilesAreAdmitted`, `SkippedIsRejectedEntry` |
| Files.ReadInfo | src/files.rs:105-113 | no contract; the bytes `std::fs::read` gives, with the path, or its error under the context `could not read file` |
| Files.Yield | src/files.rs:90-93 | no contract; a walk error is returned as `WalkFailed`, an admitted entry as its read |
| Files.Items | src/files.rs:87-116 | the specification of everything `next` yields, in walk order: one item per walk item it stops at, so never more items than walk steps; see `ItemsFrom`, `StopIsYielded`, `FilesAreAdmitted` |
| Files.StopAt | src/files.rs:88-116 | when nothing stops between the cursor and `k` and `k` stops (or is the end), `k` is the next stop and the items from the cursor begin with what is yielded at `k` |
| Files.SkippedIsRejectedEntry | src/files.rs:95-104 | every skipped item is an entry that is a directory, fails the file types or fails the globs |
| Files.ItemsAppend | src/files.rs:88-116 | the items of a walk made of two parts are the items of the first followed by those of the second |
| Files.ItemsOfSkipped | src/files.rs:96-104 | a stretch with nothing to stop at yields nothing |
| Files.ItemsFrom | src/files.rs:88-116 | from the cursor, what is left is the yield of the next stop followed by the items after it, or nothing |
| Files.ItemsFromWalk | src/files.rs:88-116 | every item is the yield of a walk item the iterator stops at |
| Files.FilesAreAdmitted | src/files.rs:95-114 | a file item is a non-directory entry of the walk that passes both filters, with the bytes the reader gives for it |
| Files.StopIsYielded | src/files.rs:88-116 | every walk item the iterator stops at is yielded, between the items before and after it, in walk order |
| Files.NoFiltersAdmitFiles | src/files.rs:96-104 | with no file types and no globs, an entry is admitted exactly when it is not a directory |
| Files.FileIter.constructor | src/files.rs:79-83 | the iterator starts at the head of the walk, with everything `Items` describes still to come |
| Files.FileIter.Next | src/files.rs:88-116 | `None` with the cursor at the end when no stop is left; otherwise the walk error (as `WalkFailed`) or the read of the first admitted entry, with the cursor just past it; `None` exactly when nothing remains, and otherwise the item is the head of what remained |
| Files.Find | src/files.rs:65-72 | a fresh iterator over the walk with the options' file types and globs, yielding exactly `Items` of the walk |
| FileTests.TypedFilesOfWalk | src/files.rs:88-133 | in the walk `a.<ext>`, `b.<other>`, an error, `sub/`, `sub/a.<ext>`, with the single file type `ext`, the items are the read of `a.<ext>`, the error, then the read of `sub/a.<ext>` |
| FileTests.RustFilesOfWalk | src/files.rs:88-133 | the same for `a.rs`, `b.kt` and `sub/a.rs` with the file type `rs` |
| FileTests.NamesOfWalk | src/files.rs:31-43 | a plain glob naming a file admits that file at the top and three directories down, in walk order |
| FileTests.ReadmesOfWalk | src/files.rs:88-122 | the glob `README.md` admits both `README.md` files of the walk |
| GlobTests.DeepFileName | src/files.rs:157 | the file name of `/foo/bar/baz/README.md` is `README.md` |
| GlobTests.FileNameTests | src/files.rs:142-153 | `README.md` and `*` match the path `README.md`; `!*` does not |
| GlobTests.DeepPlainName | src/files.rs:159 | `README.md` matches `/foo/bar/baz/README.md` |
| GlobTests.DeepNamePrefix | src/files.rs:160 | `README*` does not match the full path, but the glob matches it through the file name |
| GlobTests.DeepStarSuffix | src/files.rs:161 | `*.md` matches it |
| GlobTests.DeepRecursiveName | src/files.rs:162 | `**/README.md` matches it |
| GlobTests.DeepTwoRecursive | src/files.rs:163 | `**/bar/**/*.md` matches it |
| GlobTests.DeepInfix | src/files.rs:164 | `*baz/README*` matches it |
| GlobTests.DeepDirectory | src/files.rs:165 | `**/foo/**` matches it |
| GlobTests.DeepNegatedDirectory | src/files.rs:166 | `!**/foobar/**` parses as a negated glob and matches it |
| GlobTests.DeepPlainMisses | src/files.rs:171-174 | `bar` and `baz/README.md` do not match it |
| GlobTests.DeepRecursiveMiss | src/files.rs:171-174 | `bar/**` does not match it |

## Left out

- `stream` (`src/files.rs:52-63`): the blocking task and the bounded channel
  of capacity 100 are concurrency and async hand-off. They are not modelled.
- `ignore::Walk`: its ignore-file and hidden-file rules and its traversal order
  are not modelled. The walk is given as the sequence of items it yields, each
  an I/O error or an entry with its `is_dir` attribute.
- `std::fs::read` is a parameter, a function from paths to bytes or an error.
  `Path::is_dir` is an attribute of each walk entry, fixed at walk time.
- The `println!` at `src/files.rs:32` is left out; it is debug output only.
- Error messages: errors are a datatype with the context string
  `could not read file`. The `anyhow` chain and the formatted text of a parse
  error are not modelled; the parse error keeps the expression and the reason.
- Paths are strings. Non-UTF-8 names are not modelled: `to_str` failing, which
  makes both the file-name fallback and `fts_match` give false. Only `/` is a
  separator, and prefixes such as Windows drive letters are not modelled.
- `GlobPattern`: a reconstruction of `glob::Pattern` big enough for the unit
  tests, not a model of that library:
  - it supports literals, `?`, `*`, `**`, `[...]` and `[!...]` classes, and the
    three error kinds of `Pattern::new`;
  - it uses the default match options;
  - `matches_path` is taken to be `matches` on the path's text;
  - the library's early exit for sub-pattern failures is not modelled;
  - the tokeniser follows `Pattern::new` and its class parser in the `glob`
    0.3 series; the version the repository pins is not part of this model.
- `Globs.Parse`: its contract leaves out the bare `!`. `Globs.BareMarker`
  states that case.
- `src/lib.rs` and `src/main.rs`: command-line handling, prompt templates and
  the language-model call. These are not part of this model.
