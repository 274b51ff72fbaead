/**
 * `find` and its iterator (src/files.rs): a cursor over the entries of a
 * directory walk that skips directories and entries the filters reject,
 * passes walk errors through, and reads each admitted file.
 *
 * The walk (`ignore::Walk`) is given as the sequence of what it yields, and
 * `std::fs::read` as a function from paths to bytes or an I/O error.
 */
module Files {
  import opened Wrappers
  import opened Paths
  import opened Globs
  import opened Filters

  newtype byte = x: int | 0 <= x < 256

  datatype IoError = IoError(message: string)

  /** One entry of the walk; `isDir` is what `Path::is_dir` reports for it. */
  datatype WalkEntry = WalkEntry(path: Path, isDir: bool)

  /** What one step of the walk yields. */
  type WalkItem = Result<WalkEntry, IoError>

  /** The errors `next` yields: a failed walk step, or a failed read with its context. */
  datatype Error = WalkFailed(cause: IoError) | ReadFailed(context: string, cause: IoError)

  const ReadContext: string := "could not read file"

  /** An admitted file and its bytes. */
  datatype FileInfo = FileInfo(path: Path, bs: seq<byte>)

  type Item = Result<FileInfo, Error>

  /** `std::fs::read`. */
  type Reader = Path -> Result<seq<byte>, IoError>

  datatype FindOpts = FindOpts(dir: Path, fileTypes: seq<string>, globs: seq<Glob>)

  /** A walk entry becomes a file: it is not a directory and passes both filters. */
  predicate Admitted(e: WalkEntry, fts: seq<string>, globs: seq<Glob>)
  {
    !e.isDir && FtsMatch(e.path, fts) && GlobsMatch(e.path, globs)
  }

  /** `next` stops at this walk item: it is an error, or an admitted entry. */
  predicate Stops(w: WalkItem, fts: seq<string>, globs: seq<Glob>)
  {
    w.Err? || Admitted(w.value, fts, globs)
  }

  /** The result of reading an admitted file. */
  function ReadInfo(p: Path, read: Reader): Item
  {
    match read(p)
    case Ok(bs) => Ok(FileInfo(p, bs))
    case Err(e) => Err(ReadFailed(ReadContext, e))
  }

  /** What `next` returns for the item it stops at. */
  function Yield(w: WalkItem, read: Reader): Item
  {
    match w
    case Err(e) => Err(WalkFailed(e))
    case Ok(entry) => ReadInfo(entry.path, read)
  }

  /**
   * Everything the iterator yields for the walk `ws`, in order: one item for
   * each walk item it stops at, so never more items than walk steps.
   */
  function Items(ws: seq<WalkItem>, fts: seq<string>, globs: seq<Glob>, read: Reader): (r: seq<Item>)
    ensures |r| <= |ws|
    decreases |ws|
  {
    if ws == [] then []
    else (if Stops(ws[0], fts, globs) then [Yield(ws[0], read)] else []) + Items(ws[1..], fts, globs, read)
  }

  /**
   * The index of the first item at or after `from` that `next` stops at, or
   * `|ws|` when there is none; everything in between is skipped.
   */
  function NextStop(ws: seq<WalkItem>, from: nat, fts: seq<string>, globs: seq<Glob>): (k: nat)
    requires from <= |ws|
    ensures from <= k <= |ws|
    ensures forall j :: from <= j < k ==> !Stops(ws[j], fts, globs)
    ensures k < |ws| ==> Stops(ws[k], fts, globs)
    decreases |ws| - from
  {
    if from == |ws| || Stops(ws[from], fts, globs) then from
    else NextStop(ws, from + 1, fts, globs)
  }

  /** A skipped item is an entry that is a directory or fails a filter. */
  lemma SkippedIsRejectedEntry(ws: seq<WalkItem>, from: nat, fts: seq<string>, globs: seq<Glob>, j: nat)
    requires from <= |ws| && from <= j < NextStop(ws, from, fts, globs)
    ensures ws[j].Ok?
    ensures ws[j].value.isDir || !FtsMatch(ws[j].value.path, fts) || !GlobsMatch(ws[j].value.path, globs)
  {
  }

  /** The items of a concatenated walk are the items of its parts, in order. */
  lemma {:induction false} ItemsAppend(a: seq<WalkItem>, b: seq<WalkItem>, fts: seq<string>, globs: seq<Glob>, read: Reader)
    ensures Items(a + b, fts, globs, read) == Items(a, fts, globs, read) + Items(b, fts, globs, read)
    decreases |a|
  {
    if a == [] {
      assert a + b == b;
    } else {
      var head := if Stops(a[0], fts, globs) then [Yield(a[0], read)] else [];
      assert (a + b)[0] == a[0];
      assert (a + b)[1..] == a[1..] + b;
      assert Items(a + b, fts, globs, read) == head + Items(a[1..] + b, fts, globs, read);
      ItemsAppend(a[1..], b, fts, globs, read);
      assert head + (Items(a[1..], fts, globs, read) + Items(b, fts, globs, read)) ==
        (head + Items(a[1..], fts, globs, read)) + Items(b, fts, globs, read);
    }
  }

  /** Skipped items contribute nothing. */
  lemma {:induction false} ItemsOfSkipped(ws: seq<WalkItem>, fts: seq<string>, globs: seq<Glob>, read: Reader)
    requires forall j :: 0 <= j < |ws| ==> !Stops(ws[j], fts, globs)
    ensures Items(ws, fts, globs, read) == []
    decreases |ws|
  {
    if ws != [] {
      ItemsOfSkipped(ws[1..], fts, globs, read);
    }
  }

  /**
   * From position `from`, the items still to come are the one `next` stops
   * at, followed by those after it; none once the walk has no stop left.
   */
  lemma ItemsFrom(ws: seq<WalkItem>, from: nat, fts: seq<string>, globs: seq<Glob>, read: Reader)
    requires from <= |ws|
    ensures var k := NextStop(ws, from, fts, globs);
      Items(ws[from..], fts, globs, read) ==
        if k == |ws| then [] else [Yield(ws[k], read)] + Items(ws[k + 1..], fts, globs, read)
  {
    var k := NextStop(ws, from, fts, globs);
    assert ws[from..] == ws[from..k] + ws[k..];
    ItemsAppend(ws[from..k], ws[k..], fts, globs, read);
    ItemsOfSkipped(ws[from..k], fts, globs, read);
    if k < |ws| {
      assert ws[k..][1..] == ws[k + 1..];
    }
  }

  /**
   * Every item comes from the walk: a walk error is one the walk yielded, and
   * a file or read error belongs to an admitted entry of the walk.
   */
  lemma {:induction false} ItemsFromWalk(ws: seq<WalkItem>, fts: seq<string>, globs: seq<Glob>, read: Reader, n: nat)
    requires n < |Items(ws, fts, globs, read)|
    ensures exists j :: 0 <= j < |ws| && Stops(ws[j], fts, globs) && Items(ws, fts, globs, read)[n] == Yield(ws[j], read)
    decreases |ws|
  {
    var rest := Items(ws[1..], fts, globs, read);
    if Stops(ws[0], fts, globs) && n == 0 {
      assert Stops(ws[0], fts, globs) && Items(ws, fts, globs, read)[n] == Yield(ws[0], read);
    } else {
      var m := if Stops(ws[0], fts, globs) then n - 1 else n;
      assert Items(ws, fts, globs, read)[n] == rest[m];
      ItemsFromWalk(ws[1..], fts, globs, read, m);
      var j :| 0 <= j < |ws[1..]| && Stops(ws[1..][j], fts, globs) && rest[m] == Yield(ws[1..][j], read);
      assert ws[1..][j] == ws[j + 1];
    }
  }

  /** A successful item is an admitted, non-directory entry, read as it is on disk. */
  lemma FilesAreAdmitted(ws: seq<WalkItem>, fts: seq<string>, globs: seq<Glob>, read: Reader, n: nat)
    requires n < |Items(ws, fts, globs, read)| && Items(ws, fts, globs, read)[n].Ok?
    ensures var info := Items(ws, fts, globs, read)[n].value;
      (exists j :: 0 <= j < |ws| && ws[j] == Ok(WalkEntry(info.path, false))) &&
      FtsMatch(info.path, fts) && GlobsMatch(info.path, globs) && read(info.path) == Ok(info.bs)
  {
    ItemsFromWalk(ws, fts, globs, read, n);
  }

  /** Every item the iterator stops at is yielded, between the items before and after it. */
  lemma StopIsYielded(ws: seq<WalkItem>, fts: seq<string>, globs: seq<Glob>, read: Reader, j: nat)
    requires j < |ws| && Stops(ws[j], fts, globs)
    ensures Items(ws, fts, globs, read) ==
      Items(ws[..j], fts, globs, read) + [Yield(ws[j], read)] + Items(ws[j + 1..], fts, globs, read)
  {
    assert ws == ws[..j] + ws[j..];
    ItemsAppend(ws[..j], ws[j..], fts, globs, read);
    assert ws[j..][1..] == ws[j + 1..];
  }

  /** The next stop is the only position that ends the scan from `from`. */
  lemma NextStopIs(ws: seq<WalkItem>, from: nat, k: nat, fts: seq<string>, globs: seq<Glob>)
    requires from <= k <= |ws|
    requires forall j :: from <= j < k ==> !Stops(ws[j], fts, globs)
    requires k < |ws| ==> Stops(ws[k], fts, globs)
    ensures NextStop(ws, from, fts, globs) == k
  {
  }

  /**
   * Where the scan from `from` ends at `k` (nothing stops before it, and
   * `k` stops unless it is the end), `k` is the next stop and the items from
   * `from` on start with the yield at `k`.
   */
  lemma StopAt(ws: seq<WalkItem>, from: nat, k: nat, fts: seq<string>, globs: seq<Glob>, read: Reader)
    requires from <= k <= |ws|
    requires forall j :: from <= j < k ==> !Stops(ws[j], fts, globs)
    requires k < |ws| ==> Stops(ws[k], fts, globs)
    ensures NextStop(ws, from, fts, globs) == k
    ensures Items(ws[from..], fts, globs, read) ==
      if k == |ws| then [] else [Yield(ws[k], read)] + Items(ws[k + 1..], fts, globs, read)
  {
    NextStopIs(ws, from, k, fts, globs);
    ItemsFrom(ws, from, fts, globs, read);
  }

  /** With no file types and no globs, every file is admitted and no directory is. */
  lemma NoFiltersAdmitFiles(e: WalkEntry)
    ensures Admitted(e, [], []) <==> !e.isDir
  {
  }

  /** `IntoIter`: the walk with a cursor into it, and the two filters. */
  class FileIter {
    const walk: seq<WalkItem>
    const fts: seq<string>
    const globs: seq<Glob>
    const read: Reader
    var cursor: nat

    ghost predicate Valid()
      reads this
    {
      cursor <= |walk|
    }

    /** What the iterator has still to yield. */
    ghost function Remaining(): seq<Item>
      reads this
      requires Valid()
    {
      Items(walk[cursor..], fts, globs, read)
    }

    constructor (walk: seq<WalkItem>, fts: seq<string>, globs: seq<Glob>, read: Reader)
      ensures Valid() && cursor == 0
      ensures this.walk == walk && this.fts == fts && this.globs == globs && this.read == read
      ensures Remaining() == Items(walk, fts, globs, read)
    {
      this.walk := walk;
      this.fts := fts;
      this.globs := globs;
      this.read := read;
      cursor := 0;
      new;
      assert walk[0..] == walk;
    }

    /**
     * `Iterator::next`: skips directories and rejected entries, returns a
     * walk error as it is, and returns the read of the first admitted entry;
     * `None` once the walk is exhausted.
     */
    method Next() returns (item: Option<Item>)
      requires Valid()
      modifies this
      ensures Valid()
      ensures var k := NextStop(walk, old(cursor), fts, globs);
        if k == |walk| then item == None && cursor == |walk|
        else item == Some(Yield(walk[k], read)) && cursor == k + 1
      ensures item.None? <==> old(Remaining()) == []
      ensures item.Some? ==> old(Remaining()) == [item.value] + Remaining()
    {
      ghost var start := cursor;
      while true
        invariant start <= cursor <= |walk|
        invariant forall j :: start <= j < cursor ==> !Stops(walk[j], fts, globs)
        decreases |walk| - cursor
      {
        if cursor == |walk| {
          StopAt(walk, start, cursor, fts, globs, read);
          return None;
        }
        var res := walk[cursor];
        cursor := cursor + 1;
        var entry;
        match res {
          case Err(err) =>
            StopAt(walk, start, cursor - 1, fts, globs, read);
            return Some(Err(WalkFailed(err)));
          case Ok(e) =>
            entry := e;
        }
        var path := entry.path;
        if entry.isDir {
          continue;
        }
        if !FtsMatch(path, fts) {
          continue;
        }
        if !GlobsMatch(path, globs) {
          continue;
        }
        StopAt(walk, start, cursor - 1, fts, globs, read);
        return Some(ReadInfo(path, read));
      }
    }
  }

  /** `find`: an iterator over the walk of `opts.dir` with the options' filters. */
  method Find(opts: FindOpts, walk: seq<WalkItem>, read: Reader) returns (iter: FileIter)
    ensures fresh(iter) && iter.Valid()
    ensures iter.walk == walk && iter.fts == opts.fileTypes && iter.globs == opts.globs && iter.read == read
    ensures iter.cursor == 0
    ensures iter.Remaining() == Items(walk, opts.fileTypes, opts.globs, read)
  {
    iter := new FileIter(walk, opts.fileTypes, opts.globs, read);
  }
}
