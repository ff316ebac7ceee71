/**
 * An abstract file system for the storage root: the set of directories and the map of
 * files, both over resolved component paths. Each operation is the behaviour of the one
 * `fs/promises` call the server makes, with the errors the server can meet.
 */
module Fs {
  import opened Wrappers
  import opened Paths
  import opened RoomSnapshots

  /** What a file holds: raw media bytes, or a serialised room snapshot. */
  datatype Content = Blob(bytes: seq<bv8>) | Serialized(snapshot: Snapshot)

  /** The error codes the modelled calls reject with. */
  datatype FsError = NoEntry | NotADirectory | IsADirectory | AlreadyExists | InvalidMove

  datatype FileSystem = FileSystem(dirs: set<Path>, files: map<Path, Content>)

  predicate IsPrefix(p: Path, q: Path) {
    |p| <= |q| && q[..|p|] == p
  }

  /** A well-formed tree: nothing is both a file and a directory, every entry's ancestors are directories. */
  ghost predicate Valid(fs: FileSystem) {
    (forall p :: p in fs.dirs ==> p !in fs.files) &&
    (forall p, k :: p in fs.dirs && 0 <= k < |p| ==> p[..k] in fs.dirs) &&
    (forall p, k :: p in fs.files && 0 <= k < |p| ==> p[..k] in fs.dirs)
  }

  /** `access(p, F_OK)` succeeds. */
  predicate Exists(fs: FileSystem, p: Path) {
    p in fs.dirs || p in fs.files
  }

  /** `p` and all its ancestors, the root included. */
  function Ancestors(p: Path): set<Path> {
    set k | 0 <= k <= |p| :: p[..k]
  }

  /**
   * `mkdir(p, { recursive: true })`: fails when `p` or one of its ancestors is a file;
   * otherwise `p` and all its ancestors are directories afterwards, nothing else is added
   * and an existing directory is no error.
   */
  function Mkdir(fs: FileSystem, p: Path): (r: Result<FileSystem, FsError>)
    ensures r.Ok? <==> forall k :: 0 <= k <= |p| ==> p[..k] !in fs.files
    ensures r.Ok? ==> r.value.files == fs.files && fs.dirs <= r.value.dirs
    ensures r.Ok? ==> forall k :: 0 <= k <= |p| ==> p[..k] in r.value.dirs
    ensures r.Ok? ==> forall q :: q in r.value.dirs ==> q in fs.dirs || IsPrefix(q, p)
    ensures r.Ok? && Valid(fs) ==> Valid(r.value)
  {
    if exists k :: 0 <= k <= |p| && p[..k] in fs.files then
      Err(if p in fs.files then AlreadyExists else NotADirectory)
    else
      var r := fs.(dirs := fs.dirs + Ancestors(p));
      assert forall k :: 0 <= k <= |p| ==> p[..k] in Ancestors(p);
      assert forall q, k :: q in Ancestors(p) && 0 <= k < |q| ==> q[..k] == p[..k];
      Ok(r)
  }

  /** Creating a folder chain twice is the same as creating it once. */
  lemma MkdirIdempotent(fs: FileSystem, p: Path)
    requires Mkdir(fs, p).Ok?
    ensures Mkdir(Mkdir(fs, p).value, p) == Mkdir(fs, p)
  {
  }

  /**
   * `rm(p, { recursive: true, force: true })`: everything at or below `p` is gone,
   * everything else is untouched, and a missing `p` is no error.
   */
  function Remove(fs: FileSystem, p: Path): (r: FileSystem)
    ensures forall q :: IsPrefix(p, q) ==> !Exists(r, q)
    ensures forall q :: !IsPrefix(p, q) ==> (q in r.dirs <==> q in fs.dirs)
    ensures forall q :: !IsPrefix(p, q) ==> (q in r.files <==> q in fs.files)
    ensures forall q :: q in r.files ==> q in fs.files && r.files[q] == fs.files[q]
    ensures Valid(fs) ==> Valid(r)
  {
    var r := FileSystem(set q | q in fs.dirs && !IsPrefix(p, q),
                        map q | q in fs.files && !IsPrefix(p, q) :: fs.files[q]);
    assert forall q, k :: 0 <= k < |q| && IsPrefix(p, q[..k]) ==> IsPrefix(p, q);
    r
  }

  /** Removing a folder twice is the same as removing it once. */
  lemma RemoveIdempotent(fs: FileSystem, p: Path)
    ensures Remove(Remove(fs, p), p) == Remove(fs, p)
  {
  }

  /**
   * `writeFile(p, c)`: fails on a directory, on the root and when the parent is not a
   * directory; otherwise `p` holds `c` and nothing else changes.
   */
  function WriteFile(fs: FileSystem, p: Path, c: Content): (r: Result<FileSystem, FsError>)
    ensures r.Ok? <==> |p| > 0 && p !in fs.dirs && p[..|p| - 1] in fs.dirs
    ensures r.Ok? ==> r.value.dirs == fs.dirs && r.value.files == fs.files[p := c]
    ensures r.Ok? && Valid(fs) ==> Valid(r.value)
  {
    if |p| == 0 || p in fs.dirs then Err(IsADirectory)
    else if p[..|p| - 1] !in fs.dirs then Err(if p[..|p| - 1] in fs.files then NotADirectory else NoEntry)
    else
      var r := fs.(files := fs.files[p := c]);
      assert Valid(fs) ==> forall k :: 0 <= k < |p| ==> p[..k] in fs.dirs by {
        if Valid(fs) {
          forall k | 0 <= k < |p| ensures p[..k] in fs.dirs {
            if k < |p| - 1 { assert p[..k] == p[..|p| - 1][..k]; }
          }
        }
      }
      Ok(r)
  }

  /** `readFile(p)`: the content of a file, `NoEntry` or `IsADirectory` otherwise. */
  function ReadFile(fs: FileSystem, p: Path): (r: Result<Content, FsError>)
    ensures r.Ok? <==> p in fs.files
    ensures r.Ok? ==> r.value == fs.files[p]
  {
    if p in fs.files then Ok(fs.files[p])
    else if p in fs.dirs then Err(IsADirectory)
    else Err(NoEntry)
  }

  /** What `rename(src, dst)` makes of a path: everything at or below `src` moves below `dst`. */
  function Moved(src: Path, dst: Path, q: Path): Path {
    if IsPrefix(src, q) then dst + q[|src|..] else q
  }

  /** With `dst` absent, moving is injective on the entries of a well-formed tree. */
  lemma MovedInjective(fs: FileSystem, src: Path, dst: Path, q1: Path, q2: Path)
    requires Valid(fs) && !Exists(fs, dst)
    requires Exists(fs, q1) && Exists(fs, q2) && Moved(src, dst, q1) == Moved(src, dst, q2)
    ensures q1 == q2
  {
    if IsPrefix(src, q1) && !IsPrefix(src, q2) {
      AncestorExists(fs, dst, q2);
    } else if IsPrefix(src, q2) && !IsPrefix(src, q1) {
      AncestorExists(fs, dst, q1);
    } else if IsPrefix(src, q1) && IsPrefix(src, q2) {
      assert q1 == src + q1[|src|..] && q2 == src + q2[|src|..];
      assert dst + q1[|src|..] == dst + q2[|src|..];
      assert q1[|src|..] == (dst + q1[|src|..])[|dst|..];
    }
  }

  /** In a well-formed tree every ancestor of an entry exists. */
  lemma AncestorExists(fs: FileSystem, p: Path, q: Path)
    requires Valid(fs) && Exists(fs, q) && IsPrefix(p, q)
    ensures Exists(fs, p)
  {
    if |p| == |q| { assert q == q[..|p|]; } else { assert q[..|p|] in fs.dirs; }
  }

  /**
   * `rename(src, dst)` as far as the server uses it: fails when `src` does not exist,
   * when `dst` lies inside `src`, when the parent of `dst` is not a directory or when `dst`
   * already exists; renaming a path to itself changes nothing.
   */
  function Rename(fs: FileSystem, src: Path, dst: Path): (r: Result<FileSystem, FsError>)
    requires Valid(fs)
    ensures r.Ok? <==>
      Exists(fs, src) &&
      (src == dst || (!IsPrefix(src, dst) && |dst| > 0 && dst[..|dst| - 1] in fs.dirs && !Exists(fs, dst)))
    ensures r.Ok? && src == dst ==> r.value == fs
  {
    if !Exists(fs, src) then Err(NoEntry)
    else if src == dst then Ok(fs)
    else if IsPrefix(src, dst) then Err(InvalidMove)
    else if |dst| == 0 then Err(AlreadyExists)
    else if dst[..|dst| - 1] !in fs.dirs then Err(if dst[..|dst| - 1] in fs.files then NotADirectory else NoEntry)
    else if Exists(fs, dst) then Err(AlreadyExists)
    else Ok(MoveAll(fs, src, dst))
  }

  /** Every entry of `fs` carried to where `Moved` puts it; `dst` is free, so no two collide. */
  function MoveAll(fs: FileSystem, src: Path, dst: Path): FileSystem
    requires Valid(fs) && !Exists(fs, dst)
  {
    assert forall q1, q2 :: q1 in fs.files && q2 in fs.files && Moved(src, dst, q1) == Moved(src, dst, q2) ==> q1 == q2 by {
      forall q1, q2 | q1 in fs.files && q2 in fs.files && Moved(src, dst, q1) == Moved(src, dst, q2) ensures q1 == q2 {
        MovedInjective(fs, src, dst, q1, q2);
      }
    }
    FileSystem(set q | q in fs.dirs :: Moved(src, dst, q),
               map q | q in fs.files :: Moved(src, dst, q) := fs.files[q])
  }

  /**
   * A successful rename to a new place: nothing remains at or below `src`, and every entry
   * that was at `src + r` is at `dst + r`, a file with the same content.
   */
  lemma RenameMoves(fs: FileSystem, src: Path, dst: Path, rest: Path)
    requires Valid(fs) && src != dst && Rename(fs, src, dst).Ok?
    ensures !Exists(Rename(fs, src, dst).value, src)
    ensures Exists(fs, src + rest) ==> Exists(Rename(fs, src, dst).value, dst + rest)
    ensures src + rest in fs.files ==>
      dst + rest in Rename(fs, src, dst).value.files &&
      Rename(fs, src, dst).value.files[dst + rest] == fs.files[src + rest]
  {
    var r := Rename(fs, src, dst).value;
    var q := src + rest;
    assert Moved(src, dst, q) == dst + rest by { assert q[..|src|] == src && q[|src|..] == rest; }
    if Exists(r, src) {
      var x :| Exists(fs, x) && Moved(src, dst, x) == src;
      if IsPrefix(src, x) {
        assert src[..|dst|] == dst;
        assert IsPrefix(dst, src);
        AncestorExists(fs, dst, src);
      }
    }
    if q in fs.files {
      forall q1 | q1 in fs.files && Moved(src, dst, q1) == Moved(src, dst, q) ensures q1 == q {
        MovedInjective(fs, src, dst, q1, q);
      }
      assert dst + rest in r.files;
      assert fs.files[q] == r.files[Moved(src, dst, q)];
    }
  }

  /**
   * A successful rename leaves everything outside the `src` and `dst` subtrees as it was:
   * the same directories, the same files with the same contents.
   */
  lemma RenameFrame(fs: FileSystem, src: Path, dst: Path, q: Path)
    requires Valid(fs) && src != dst && Rename(fs, src, dst).Ok?
    requires !IsPrefix(src, q) && !IsPrefix(dst, q)
    ensures var r := Rename(fs, src, dst).value;
      (q in r.dirs <==> q in fs.dirs) && (q in r.files <==> q in fs.files) &&
      (q in r.files ==> r.files[q] == fs.files[q])
  {
    var r := Rename(fs, src, dst).value;
    assert r == MoveAll(fs, src, dst);
    assert Moved(src, dst, q) == q;
    if q in fs.files {
      assert r.files[Moved(src, dst, q)] == fs.files[q];
    }
  }

  /**
   * After a successful rename nothing is left at or below `src`, and every entry is one
   * that was there before, moved back by swapping `dst` for `src`: the new tree holds only
   * the old outside entries and the moved subtree.
   */
  lemma RenameOnlyMoves(fs: FileSystem, src: Path, dst: Path, q: Path)
    requires Valid(fs) && src != dst && Rename(fs, src, dst).Ok?
    requires Exists(Rename(fs, src, dst).value, q)
    ensures !IsPrefix(src, q)
    ensures q in Rename(fs, src, dst).value.dirs ==> Moved(dst, src, q) in fs.dirs
    ensures q in Rename(fs, src, dst).value.files ==> Moved(dst, src, q) in fs.files
  {
    var r := Rename(fs, src, dst).value;
    assert r == MoveAll(fs, src, dst);
    if q in r.dirs {
      var x :| x in fs.dirs && Moved(src, dst, x) == q;
      MovedBack(fs, src, dst, x);
    }
    if q in r.files {
      var x :| x in fs.files && Moved(src, dst, x) == q;
      MovedBack(fs, src, dst, x);
    }
  }

  /** Moving an entry lands it outside `src`, and swapping `dst` back for `src` undoes the move. */
  lemma MovedBack(fs: FileSystem, src: Path, dst: Path, x: Path)
    requires Valid(fs) && !Exists(fs, dst) && !IsPrefix(src, dst) && Exists(fs, x)
    ensures !IsPrefix(src, Moved(src, dst, x))
    ensures Moved(dst, src, Moved(src, dst, x)) == x
  {
    var q := Moved(src, dst, x);
    if IsPrefix(src, x) {
      var rest := x[|src|..];
      assert q == dst + rest;
      assert q[..|dst|] == dst && q[|dst|..] == rest;
      assert x == src + rest;
      if IsPrefix(src, q) {
        if |src| > |dst| { AncestorExists(fs, dst, x); }
      }
    } else {
      if IsPrefix(dst, q) { AncestorExists(fs, dst, x); }
    }
  }

  /** A successful rename keeps the tree well formed. */
  lemma RenameKeepsValid(fs: FileSystem, src: Path, dst: Path)
    requires Valid(fs) && Rename(fs, src, dst).Ok?
    ensures Valid(Rename(fs, src, dst).value)
  {
    if src != dst {
      var r := Rename(fs, src, dst).value;
      assert r == MoveAll(fs, src, dst);
      forall p | p in r.dirs ensures p !in r.files {
        var x :| x in fs.dirs && Moved(src, dst, x) == p;
        if p in r.files {
          var y :| y in fs.files && Moved(src, dst, y) == p;
          MovedInjective(fs, src, dst, x, y);
        }
      }
      forall p, k | p in r.dirs && 0 <= k < |p| ensures p[..k] in r.dirs {
        var x :| x in fs.dirs && Moved(src, dst, x) == p;
        var y := MovedAncestor(fs, src, dst, x, k);
      }
      forall p, k | p in r.files && 0 <= k < |p| ensures p[..k] in r.dirs {
        var x :| x in fs.files && Moved(src, dst, x) == p;
        var y := MovedAncestor(fs, src, dst, x, k);
      }
    }
  }

  /** Every proper ancestor of a moved entry is a moved directory. */
  lemma MovedAncestor(fs: FileSystem, src: Path, dst: Path, x: Path, k: int) returns (y: Path)
    requires Valid(fs) && !Exists(fs, dst) && !IsPrefix(src, dst) && |dst| > 0 && dst[..|dst| - 1] in fs.dirs
    requires Exists(fs, x) && 0 <= k < |Moved(src, dst, x)|
    ensures y in fs.dirs && Moved(src, dst, y) == Moved(src, dst, x)[..k]
  {
    var p := Moved(src, dst, x);
    if !IsPrefix(src, x) {
      y := x[..k];
    } else {
      var rest := x[|src|..];
      assert p == dst + rest;
      if k < |dst| {
        var parent := dst[..|dst| - 1];
        y := dst[..k];
        assert y == parent[..k];
        assert p[..k] == y;
      } else {
        var j := |src| + (k - |dst|);
        y := x[..j];
        assert y[..|src|] == x[..|src|];
        assert y[|src|..] == rest[..k - |dst|];
        assert p[..k] == dst + rest[..k - |dst|];
      }
    }
  }
}
