/**
 * The folder service and snapshot store of rooms.ts: `ls`, `createFolder`, `removeFolder`,
 * `renameFolder`, `readSnapshotIfExists` and `saveSnapshot`, over the abstract file system.
 * `storageRoot` stands for the `BOARD_STORAGE_ROOT` environment value.
 */
module Rooms {
  import opened Wrappers
  import opened Paths
  import opened RoomSnapshots
  import opened Fs

  /** `DIR`: `${BOARD_STORAGE_ROOT}/rooms`. */
  function RoomsDir(storageRoot: string): string {
    storageRoot + "/rooms"
  }

  /** `${DIR}/${url}`, the path every folder operation works on. */
  function FolderPath(storageRoot: string, url: string): string {
    RoomsDir(storageRoot) + "/" + url
  }

  /** The `ls` handler's default `url` of `''` names the rooms directory itself. */
  lemma EmptyUrlIsRoomsDir(storageRoot: string)
    ensures Resolve(FolderPath(storageRoot, "")) == Resolve(RoomsDir(storageRoot))
  {
    ResolveTrailingSlash(RoomsDir(storageRoot));
  }

  // ---------------------------------------------------------------------------------------
  // ls

  /** `entries` is what `readdir(p)` returns: every child of `p` exactly once, in the system's order. */
  ghost predicate IsListing(fs: FileSystem, p: Path, entries: seq<string>) {
    (forall i :: 0 <= i < |entries| ==> IsName(entries[i]) && Exists(fs, p + [entries[i]])) &&
    (forall i, j :: 0 <= i < j < |entries| ==> entries[i] != entries[j]) &&
    (forall n :: Exists(fs, p + [n]) ==> n in entries)
  }

  /** The entries of a listing that are directories, in listing order. */
  function Subfolders(fs: FileSystem, p: Path, entries: seq<string>): (r: seq<string>)
    ensures forall d :: d in r <==> d in entries && p + [d] in fs.dirs
  {
    if entries == [] then []
    else
      var last := entries[|entries| - 1];
      Subfolders(fs, p, entries[..|entries| - 1]) + (if p + [last] in fs.dirs then [last] else [])
  }

  /** Over a complete listing, the subfolders are exactly the child directories, each once. */
  lemma SubfoldersOfListing(fs: FileSystem, p: Path, entries: seq<string>, d: string)
    requires IsListing(fs, p, entries)
    ensures d in Subfolders(fs, p, entries) <==> p + [d] in fs.dirs
  {
  }

  /**
   * `ls(url)`: `[]` when `${DIR}/${url}` does not exist, a rejection when it is a file,
   * and otherwise the names of its subdirectories in `readdir` order. `entries` is the
   * result of `readdir`, which the operating system orders.
   */
  method Ls(fs: FileSystem, storageRoot: string, url: string, entries: seq<string>)
    returns (r: Result<seq<string>, FsError>)
    requires Resolve(FolderPath(storageRoot, url)) in fs.dirs ==>
      IsListing(fs, Resolve(FolderPath(storageRoot, url)), entries)
    ensures !Exists(fs, Resolve(FolderPath(storageRoot, url))) ==> r == Ok([])
    ensures Resolve(FolderPath(storageRoot, url)) !in fs.dirs && Resolve(FolderPath(storageRoot, url)) in fs.files ==>
      r == Err(NotADirectory)
    ensures Resolve(FolderPath(storageRoot, url)) in fs.dirs ==>
      r == Ok(Subfolders(fs, Resolve(FolderPath(storageRoot, url)), entries))
  {
    var absPath := FolderPath(storageRoot, url);
    var p := Resolve(absPath);
    if !Exists(fs, p) {
      return Ok([]);
    }
    if p !in fs.dirs {
      return Err(NotADirectory);
    }
    var dirs: seq<string> := [];
    var i := 0;
    while i < |entries|
      invariant 0 <= i <= |entries|
      invariant dirs == Subfolders(fs, p, entries[..i])
    {
      var entry := entries[i];
      ResolveChild(absPath, entry);
      var isDirectory := Resolve(PathJoin(absPath, entry)) in fs.dirs;
      if isDirectory {
        dirs := dirs + [entry];
      }
      assert entries[..i + 1][..i] == entries[..i];
      i := i + 1;
    }
    assert entries[..i] == entries;
    return Ok(dirs);
  }

  // ---------------------------------------------------------------------------------------
  // Folder operations

  /** `createFolder(url)`: `mkdir -p ${DIR}/${url}`; afterwards the folder and its ancestors are directories. */
  function CreateFolder(fs: FileSystem, storageRoot: string, url: string): (r: Result<FileSystem, FsError>)
    ensures r.Ok? ==> Resolve(FolderPath(storageRoot, url)) in r.value.dirs && r.value.files == fs.files
    ensures r.Ok? ==> fs.dirs <= r.value.dirs
    ensures r.Ok? ==> forall q :: q in r.value.dirs ==> q in fs.dirs || IsPrefix(q, Resolve(FolderPath(storageRoot, url)))
    ensures r.Ok? && Valid(fs) ==> Valid(r.value)
    ensures var p := Resolve(FolderPath(storageRoot, url));
      r.Err? <==> (exists k :: 0 <= k <= |p| && p[..k] in fs.files)
  {
    var p := Resolve(FolderPath(storageRoot, url));
    var r := Mkdir(fs, p);
    assert p[..|p|] == p;
    r
  }

  /** Creating a folder twice gives the same tree as creating it once, without an error. */
  lemma CreateFolderIdempotent(fs: FileSystem, storageRoot: string, url: string)
    requires CreateFolder(fs, storageRoot, url).Ok?
    ensures CreateFolder(CreateFolder(fs, storageRoot, url).value, storageRoot, url) == CreateFolder(fs, storageRoot, url)
  {
    MkdirIdempotent(fs, Resolve(FolderPath(storageRoot, url)));
  }

  /** `removeFolder(url)`: `rm -rf ${DIR}/${url}`; it never fails and leaves nothing at or below the folder. */
  function RemoveFolder(fs: FileSystem, storageRoot: string, url: string): (r: FileSystem)
    ensures forall q :: IsPrefix(Resolve(FolderPath(storageRoot, url)), q) ==> !Exists(r, q)
    ensures forall q :: !IsPrefix(Resolve(FolderPath(storageRoot, url)), q) ==>
      (Exists(r, q) <==> Exists(fs, q))
    ensures forall q :: !IsPrefix(Resolve(FolderPath(storageRoot, url)), q) ==> (q in r.dirs <==> q in fs.dirs)
    ensures forall q :: !IsPrefix(Resolve(FolderPath(storageRoot, url)), q) ==> (q in r.files <==> q in fs.files)
    ensures forall q :: q in r.files ==> q in fs.files && r.files[q] == fs.files[q]
    ensures Valid(fs) ==> Valid(r)
  {
    Remove(fs, Resolve(FolderPath(storageRoot, url)))
  }

  /** Removing an already removed folder succeeds and changes nothing. */
  lemma RemoveFolderIdempotent(fs: FileSystem, storageRoot: string, url: string)
    ensures RemoveFolder(RemoveFolder(fs, storageRoot, url), storageRoot, url) == RemoveFolder(fs, storageRoot, url)
  {
    RemoveIdempotent(fs, Resolve(FolderPath(storageRoot, url)));
  }

  /**
   * `renameFolder(oldUrl, newUrl)`: `rename(${DIR}/${oldUrl}, ${DIR}/${newUrl})`; the
   * rejection of `rename` propagates, and on success the old folder is gone and its
   * entries are under the new one.
   */
  function RenameFolder(fs: FileSystem, storageRoot: string, oldUrl: string, newUrl: string): (r: Result<FileSystem, FsError>)
    requires Valid(fs)
    ensures var src, dst := Resolve(FolderPath(storageRoot, oldUrl)), Resolve(FolderPath(storageRoot, newUrl));
      r.Ok? <==> (Exists(fs, src) &&
                  (src == dst || (!IsPrefix(src, dst) && |dst| > 0 && dst[..|dst| - 1] in fs.dirs && !Exists(fs, dst))))
    ensures r.Ok? ==> Valid(r.value)
  {
    var src, dst := Resolve(FolderPath(storageRoot, oldUrl)), Resolve(FolderPath(storageRoot, newUrl));
    var r := Rename(fs, src, dst);
    if r.Ok? then RenameKeepsValid(fs, src, dst); r else r
  }

  /** After a successful rename between two different folders, the old folder no longer exists. */
  lemma RenameFolderLeavesNoOldFolder(fs: FileSystem, storageRoot: string, oldUrl: string, newUrl: string)
    requires Valid(fs) && RenameFolder(fs, storageRoot, oldUrl, newUrl).Ok?
    requires Resolve(FolderPath(storageRoot, oldUrl)) != Resolve(FolderPath(storageRoot, newUrl))
    ensures !Exists(RenameFolder(fs, storageRoot, oldUrl, newUrl).value, Resolve(FolderPath(storageRoot, oldUrl)))
    ensures Exists(RenameFolder(fs, storageRoot, oldUrl, newUrl).value, Resolve(FolderPath(storageRoot, newUrl)))
  {
    var src, dst := Resolve(FolderPath(storageRoot, oldUrl)), Resolve(FolderPath(storageRoot, newUrl));
    RenameMoves(fs, src, dst, []);
    assert src + [] == src && dst + [] == dst;
  }

  // ---------------------------------------------------------------------------------------
  // Snapshot store

  /**
   * `readSnapshotIfExists(roomId)`: the snapshot stored at `join(DIR, roomId)`; a missing
   * file, a directory or content that is not a serialised snapshot all give `undefined`.
   */
  function ReadSnapshotIfExists(fs: FileSystem, storageRoot: string, roomId: string): (r: Option<Snapshot>)
    ensures var p := Resolve(PathJoin(RoomsDir(storageRoot), roomId));
      r.Some? <==> (p in fs.files && fs.files[p].Serialized?)
    ensures r.Some? ==> fs.files[Resolve(PathJoin(RoomsDir(storageRoot), roomId))] == Serialized(r.value)
  {
    var read := ReadFile(fs, Resolve(PathJoin(RoomsDir(storageRoot), roomId)));
    if read.Ok? && read.value.Serialized? then Some(read.value.snapshot) else None
  }

  /** Why a save rejects: a file system error, or an asset URL that `new URL` refuses. */
  datatype SaveError = Storage(code: FsError) | BadUrl

  /** The folder `saveSnapshot` creates: `${DIR}/${prefix}`. */
  function SnapshotFolder(storageRoot: string, roomId: string): (r: string)
    ensures '/' in roomId ==> r == RoomsDir(storageRoot) + "/" + roomId[..LastIndexOf(roomId, '/')]
    ensures '/' !in roomId && roomId != [] ==> r == RoomsDir(storageRoot) + "/" + roomId[..|roomId| - 1]
  {
    RoomsDir(storageRoot) + "/" + SplitByLastSlash(roomId).0
  }

  /** The file `saveSnapshot` writes: that folder joined with the leaf. */
  function SnapshotFile(storageRoot: string, roomId: string): (r: string)
    ensures '/' in roomId ==> r == RoomsDir(storageRoot) + "/" + roomId
    ensures '/' !in roomId && roomId != [] ==> r == RoomsDir(storageRoot) + "/" + roomId[..|roomId| - 1] + "/" + roomId
  {
    PathJoin(SnapshotFolder(storageRoot, roomId), SplitByLastSlash(roomId).1)
  }

  /**
   * `saveSnapshot(roomId, snapshot)`: creates the folder, then writes the rewritten
   * snapshot. The file system after the call comes with the error, if any: a URL that
   * does not parse rejects after the folder has been created.
   */
  function SaveSnapshot(fs: FileSystem, storageRoot: string, pathname: string -> Option<string>,
                        roomId: string, snapshot: Snapshot): (r: (FileSystem, Option<SaveError>))
    ensures r.1.None? ==> MakeUrlsRelative(pathname, snapshot).Ok?
    ensures r.1.None? ==> (var file := Resolve(SnapshotFile(storageRoot, roomId));
      file in r.0.files && r.0.files[file] == Serialized(MakeUrlsRelative(pathname, snapshot).value))
    ensures r.1 == Some(BadUrl) <==>
      Mkdir(fs, Resolve(SnapshotFolder(storageRoot, roomId))).Ok? && MakeUrlsRelative(pathname, snapshot).Err?
    ensures r.1.None? ==> r.0.files == fs.files[Resolve(SnapshotFile(storageRoot, roomId)) :=
      Serialized(MakeUrlsRelative(pathname, snapshot).value)]
    ensures r.1.Some? ==> r.0.files == fs.files
    ensures fs.dirs <= r.0.dirs
    ensures forall q :: q in r.0.dirs ==> q in fs.dirs || IsPrefix(q, Resolve(SnapshotFolder(storageRoot, roomId)))
    ensures Valid(fs) ==> Valid(r.0)
  {
    var made := Mkdir(fs, Resolve(SnapshotFolder(storageRoot, roomId)));
    if made.Err? then (fs, Some(Storage(made.error)))
    else
      var rewritten := MakeUrlsRelative(pathname, snapshot);
      if rewritten.Err? then (made.value, Some(BadUrl))
      else
        var written := WriteFile(made.value, Resolve(SnapshotFile(storageRoot, roomId)), Serialized(rewritten.value));
        if written.Err? then (made.value, Some(Storage(written.error))) else (written.value, None)
  }

  /** For an id with a slash (the server appends `/board.json`), the file saved is the file read. */
  lemma SnapshotFileIsReadPath(storageRoot: string, roomId: string)
    requires '/' in roomId
    ensures SnapshotFile(storageRoot, roomId) == PathJoin(RoomsDir(storageRoot), roomId)
  {
    var parts := SplitByLastSlash(roomId);
    assert parts.0 + "/" + parts.1 == roomId;
    assert SnapshotFile(storageRoot, roomId) == RoomsDir(storageRoot) + "/" + (parts.0 + "/" + parts.1);
  }

  /** Save then load: a successful save is read back as the snapshot with its URLs made relative. */
  lemma SaveThenRead(fs: FileSystem, storageRoot: string, pathname: string -> Option<string>,
                     roomId: string, snapshot: Snapshot)
    requires '/' in roomId
    requires SaveSnapshot(fs, storageRoot, pathname, roomId, snapshot).1.None?
    ensures ReadSnapshotIfExists(SaveSnapshot(fs, storageRoot, pathname, roomId, snapshot).0, storageRoot, roomId)
      == Some(MakeUrlsRelative(pathname, snapshot).value)
  {
    SnapshotFileIsReadPath(storageRoot, roomId);
  }

  /**
   * The folder is created before the write, so a save succeeds whenever nothing on the
   * folder path is a file, the leaf is a plain name that is not a directory, and every
   * URL parses.
   */
  lemma SaveSucceeds(fs: FileSystem, storageRoot: string, pathname: string -> Option<string>,
                     roomId: string, snapshot: Snapshot)
    requires IsName(SplitByLastSlash(roomId).1)
    requires Mkdir(fs, Resolve(SnapshotFolder(storageRoot, roomId))).Ok?
    requires Resolve(SnapshotFolder(storageRoot, roomId)) + [SplitByLastSlash(roomId).1] !in fs.dirs
    requires MakeUrlsRelative(pathname, snapshot).Ok?
    ensures SaveSnapshot(fs, storageRoot, pathname, roomId, snapshot).1.None?
  {
    var folder := Resolve(SnapshotFolder(storageRoot, roomId));
    var leaf := SplitByLastSlash(roomId).1;
    ResolveChild(SnapshotFolder(storageRoot, roomId), leaf);
    var file := folder + [leaf];
    assert file[..|file| - 1] == folder;
    var made := Mkdir(fs, folder).value;
    assert folder[..|folder|] == folder;
  }
}
