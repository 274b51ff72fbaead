/**
 * Worked walks: a directory holding `a.rs`, `b.kt` and `sub/a.rs`, with an
 * unreadable entry in the middle, searched for the file type `rs` and no
 * globs; and one holding `README.md` at the top and deep down, searched with
 * the glob `README.md`. Each is proved for any names of the same shape, then
 * for the names above.
 */
module FileTests {
  import opened Wrappers
  import opened Paths
  import opened Globs
  import opened Filters
  import opened Files

  /** The iterator stops at position `i`: what it yields there comes first. */
  lemma StopItems(ws: seq<WalkItem>, i: nat, fts: seq<string>, globs: seq<Glob>, read: Reader)
    requires i < |ws| && Stops(ws[i], fts, globs)
    ensures Items(ws[i..], fts, globs, read) == [Yield(ws[i], read)] + Items(ws[i + 1..], fts, globs, read)
  {
    assert ws[i..][1..] == ws[i + 1..];
  }

  /** The iterator passes over position `i`: it contributes nothing. */
  lemma SkipItems(ws: seq<WalkItem>, i: nat, fts: seq<string>, globs: seq<Glob>, read: Reader)
    requires i < |ws| && !Stops(ws[i], fts, globs)
    ensures Items(ws[i..], fts, globs, read) == Items(ws[i + 1..], fts, globs, read)
  {
    assert ws[i..][1..] == ws[i + 1..];
  }

  /**
   * The walk `ignore::Walk` yields for `root` holding `a.<ext>`, `b.<other>`,
   * an entry it cannot read, and `sub/a.<ext>`, in the order it yields it.
   */
  function TypedWalk(root: Path, denied: IoError, ext: string, other: string): seq<WalkItem>
  {
    [ Ok(WalkEntry(root, true)),
      Ok(WalkEntry(root + "/a." + ext, false)),
      Ok(WalkEntry(root + "/b." + other, false)),
      Err(denied),
      Ok(WalkEntry(root + "/sub", true)),
      Ok(WalkEntry(root + "/sub/a." + ext, false)) ]
  }

  /** A type without `.` or separator makes a normal file name after a stem. */
  predicate IsTypeName(ext: string)
  {
    '.' !in ext && Separator !in ext
  }

  /** `dir/stem.e` stops the iterator for the single file type `ext` exactly when `e` is `ext`. */
  lemma TypedChild(dir: Path, stem: string, e: string, ext: string, w: WalkItem)
    requires stem == "a" || stem == "b"
    requires IsTypeName(e)
    requires w == Ok(WalkEntry(dir + [Separator] + stem + "." + e, false))
    ensures Stops(w, [ext], []) <==> e == ext
  {
    var name := stem + "." + e;
    assert Separator !in name by {
      assert forall k :: 0 <= k < |e| ==> name[k + 2] == e[k];
    }
    assert name[0] != '.';
    FtsMatchOfChild(dir, stem, e, [ext]);
  }

  lemma TypedStops(root: Path, denied: IoError, ext: string, other: string, ws: seq<WalkItem>)
    requires IsTypeName(ext) && IsTypeName(other) && ext != other
    requires ws == TypedWalk(root, denied, ext, other)
    ensures !Stops(ws[0], [ext], []) && Stops(ws[1], [ext], []) && !Stops(ws[2], [ext], [])
    ensures Stops(ws[3], [ext], []) && !Stops(ws[4], [ext], []) && Stops(ws[5], [ext], [])
  {
    assert root + "/a." + ext == root + [Separator] + "a" + "." + ext;
    assert root + "/b." + other == root + [Separator] + "b" + "." + other;
    assert root + "/sub/a." + ext == (root + "/sub") + [Separator] + "a" + "." + ext;
    TypedChild(root, "a", ext, ext, ws[1]);
    TypedChild(root, "b", other, ext, ws[2]);
    TypedChild(root + "/sub", "a", ext, ext, ws[5]);
  }

  /**
   * Searching for one file type: directories and the file of the other type
   * are skipped, the walk error is passed through, and both files of the
   * type are read, in walk order.
   */
  lemma TypedFilesOfWalk(root: Path, denied: IoError, read: Reader, ext: string, other: string)
    requires IsTypeName(ext) && IsTypeName(other) && ext != other
    ensures Items(TypedWalk(root, denied, ext, other), [ext], [], read) ==
      [ ReadInfo(root + "/a." + ext, read),
        Err(WalkFailed(denied)),
        ReadInfo(root + "/sub/a." + ext, read) ]
  {
    var ws := TypedWalk(root, denied, ext, other);
    var fts := [ext];
    TypedStops(root, denied, ext, other, ws);
    TypedTail(ws, fts, read);
    SkipItems(ws, 2, fts, [], read);
    StopItems(ws, 1, fts, [], read);
    SkipItems(ws, 0, fts, [], read);
    assert ws[0..] == ws;
  }

  /** From the walk error on: the error, the skipped `sub`, then `sub/a.<ext>`. */
  lemma TypedTail(ws: seq<WalkItem>, fts: seq<string>, read: Reader)
    requires |ws| == 6 && ws[3].Err?
    requires !Stops(ws[4], fts, []) && Stops(ws[5], fts, [])
    ensures Items(ws[3..], fts, [], read) == [Yield(ws[3], read), Yield(ws[5], read)]
  {
    StopItems(ws, 5, fts, [], read);
    SkipItems(ws, 4, fts, [], read);
    StopItems(ws, 3, fts, [], read);
    assert ws[6..] == [];
  }

  /** The walk of `a.rs`, `b.kt`, an unreadable entry and `sub/a.rs`, for the type `rs`. */
  lemma RustFilesOfWalk(root: Path, denied: IoError, read: Reader, rs: string, kt: string)
    requires rs == "rs" && kt == "kt"
    ensures Items(TypedWalk(root, denied, rs, kt), [rs], [], read) ==
      [ ReadInfo(root + "/a." + rs, read),
        Err(WalkFailed(denied)),
        ReadInfo(root + "/sub/a." + rs, read) ]
  {
    TypedFilesOfWalk(root, denied, read, rs, kt);
  }

  /** A file `name` at the top of `root` and under `foo/bar/baz`, with one directory entry between. */
  function NamedWalk(root: Path, name: string): seq<WalkItem>
  {
    [ Ok(WalkEntry(root, true)),
      Ok(WalkEntry(root + [Separator] + name, false)),
      Ok(WalkEntry(root + "/foo", true)),
      Ok(WalkEntry(root + "/foo/bar/baz" + [Separator] + name, false)) ]
  }

  lemma NamedStops(root: Path, name: string, ws: seq<WalkItem>, g: Glob)
    requires IsPlainName(name) && IsNormalName(name) && Parse(name) == Ok(g)
    requires ws == NamedWalk(root, name)
    ensures !Stops(ws[0], [], [g]) && Stops(ws[1], [], [g])
    ensures !Stops(ws[2], [], [g]) && Stops(ws[3], [], [g])
  {
    PlainGlobMatchesAnyDepth(name, root);
    PlainGlobMatchesAnyDepth(name, root + "/foo/bar/baz");
  }

  /** A plain glob that is a file name admits that file at every depth, in walk order. */
  lemma NamesOfWalk(root: Path, name: string, read: Reader)
    requires IsPlainName(name) && IsNormalName(name)
    ensures Parse(name).Ok?
    ensures Items(NamedWalk(root, name), [], [Parse(name).value], read) ==
      [ ReadInfo(root + [Separator] + name, read), ReadInfo(root + "/foo/bar/baz" + [Separator] + name, read) ]
  {
    ParsePlain(name);
    var g := Parse(name).value;
    var ws := NamedWalk(root, name);
    NamedStops(root, name, ws, g);
    StopItems(ws, 3, [], [g], read);
    SkipItems(ws, 2, [], [g], read);
    StopItems(ws, 1, [], [g], read);
    SkipItems(ws, 0, [], [g], read);
    assert ws[4..] == [];
    assert ws[0..] == ws;
  }

  /** `README.md` is a plain name and a normal file name. */
  lemma ReadmeIsPlain(name: string)
    requires name == "README.md"
    ensures IsPlainName(name) && IsNormalName(name)
  {
  }

  /** The glob `README.md` admits both `README.md` files, the deep one through its file name. */
  lemma ReadmesOfWalk(root: Path, read: Reader, name: string)
    requires name == "README.md"
    ensures Parse(name).Ok?
    ensures Items(NamedWalk(root, name), [], [Parse(name).value], read) ==
      [ ReadInfo(root + [Separator] + name, read), ReadInfo(root + "/foo/bar/baz" + [Separator] + name, read) ]
  {
    ReadmeIsPlain(name);
    NamesOfWalk(root, name, read);
  }
}
