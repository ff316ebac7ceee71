/**
 * The media store of assets.ts: uploaded files live under `${BOARD_STORAGE_ROOT}/media`,
 * `storeAsset(id)` creates the folder part of the id and writes the leaf into it, and
 * `loadAsset(id)` reads `join(DIR, id)`.
 */
module Assets {
  import opened Wrappers
  import opened Paths
  import opened Fs

  /** `DIR`: the media folder under the storage root. */
  function MediaDir(storageRoot: string): string {
    storageRoot + "/media"
  }

  /** The folder `storeAsset` creates: `${DIR}/${prefix}`. */
  function AssetFolder(storageRoot: string, id: string): (r: string)
    ensures '/' in id ==> r == MediaDir(storageRoot) + "/" + id[..LastIndexOf(id, '/')]
    ensures '/' !in id && id != [] ==> r == MediaDir(storageRoot) + "/" + id[..|id| - 1]
  {
    MediaDir(storageRoot) + "/" + SplitByLastSlash(id).0
  }

  /** The file `storeAsset` writes: that folder joined with the leaf. */
  function AssetFile(storageRoot: string, id: string): (r: string)
    ensures '/' in id ==> r == MediaDir(storageRoot) + "/" + id
    ensures '/' !in id && id != [] ==> r == MediaDir(storageRoot) + "/" + id[..|id| - 1] + "/" + id
  {
    PathJoin(AssetFolder(storageRoot, id), SplitByLastSlash(id).1)
  }

  /** The file `loadAsset` reads: `join(DIR, id)`. */
  function LoadedFile(storageRoot: string, id: string): string {
    PathJoin(MediaDir(storageRoot), id)
  }

  /**
   * Create `folder` recursively, then write `data` to `file`. The file system after the
   * call comes with the error, if any: a failed write leaves the folders created.
   */
  function StoreAt(fs: FileSystem, folder: Path, file: Path, data: seq<bv8>): (r: (FileSystem, Option<FsError>))
    ensures r.1.None? <==> Mkdir(fs, folder).Ok? && WriteFile(Mkdir(fs, folder).value, file, Blob(data)).Ok?
    ensures r.1.None? ==> r.0.files == fs.files[file := Blob(data)]
    ensures r.1.Some? ==> r.0.files == fs.files
    ensures fs.dirs <= r.0.dirs
    ensures Valid(fs) ==> Valid(r.0)
  {
    var made := Mkdir(fs, folder);
    if made.Err? then (fs, Some(made.error))
    else
      var written := WriteFile(made.value, file, Blob(data));
      if written.Err? then (made.value, Some(written.error)) else (written.value, None)
  }

  /** `storeAsset(id, stream)`, with the stream's bytes given as `data`. */
  function StoreAsset(fs: FileSystem, storageRoot: string, id: string, data: seq<bv8>): (r: (FileSystem, Option<FsError>))
    ensures r.1.None? ==> r.0.files == fs.files[Resolve(AssetFile(storageRoot, id)) := Blob(data)]
    ensures r.1.Some? ==> r.0.files == fs.files
    ensures Valid(fs) ==> Valid(r.0)
  {
    StoreAt(fs, Resolve(AssetFolder(storageRoot, id)), Resolve(AssetFile(storageRoot, id)), data)
  }

  /** `loadAsset(id)`: the content of `join(DIR, id)`, or the error `readFile` rejects with. */
  function LoadAsset(fs: FileSystem, storageRoot: string, id: string): (r: Result<Content, FsError>)
    ensures r.Ok? <==> Resolve(LoadedFile(storageRoot, id)) in fs.files
    ensures r.Ok? ==> r.value == fs.files[Resolve(LoadedFile(storageRoot, id))]
  {
    ReadFile(fs, Resolve(LoadedFile(storageRoot, id)))
  }

  /** For an id with a slash, the file `storeAsset` writes is the file `loadAsset` reads. */
  lemma AssetFileIsLoadedFile(storageRoot: string, id: string)
    requires '/' in id
    ensures AssetFile(storageRoot, id) == LoadedFile(storageRoot, id)
  {
    var parts := SplitByLastSlash(id);
    assert parts.0 + "/" + parts.1 == id;
    assert AssetFile(storageRoot, id) == MediaDir(storageRoot) + "/" + (parts.0 + "/" + parts.1);
  }

  /** Store then load: for an id with a slash, a successful store is read back byte for byte. */
  lemma StoreThenLoad(fs: FileSystem, storageRoot: string, id: string, data: seq<bv8>)
    requires '/' in id
    requires StoreAsset(fs, storageRoot, id, data).1.None?
    ensures LoadAsset(StoreAsset(fs, storageRoot, id, data).0, storageRoot, id) == Ok(Blob(data))
  {
    AssetFileIsLoadedFile(storageRoot, id);
  }

  /**
   * The folder is created before the write, so a store succeeds whenever nothing on the
   * folder path is a file and the leaf is a plain name that is not a directory there.
   */
  lemma StoreSucceeds(fs: FileSystem, storageRoot: string, id: string, data: seq<bv8>)
    requires IsName(SplitByLastSlash(id).1)
    requires Mkdir(fs, Resolve(AssetFolder(storageRoot, id))).Ok?
    requires Resolve(AssetFolder(storageRoot, id)) + [SplitByLastSlash(id).1] !in fs.dirs
    ensures StoreAsset(fs, storageRoot, id, data).1.None?
    ensures StoreAsset(fs, storageRoot, id, data).0.files[Resolve(AssetFile(storageRoot, id))] == Blob(data)
  {
    var folder := Resolve(AssetFolder(storageRoot, id));
    var leaf := SplitByLastSlash(id).1;
    ResolveChild(AssetFolder(storageRoot, id), leaf);
    var file := folder + [leaf];
    assert file[..|file| - 1] == folder;
    assert folder[..|folder|] == folder;
  }

  /**
   * An id without a slash: `lastIndexOf` gives -1, so the folder is the id without its
   * last character and the leaf is the whole id. The file is filed one level too deep,
   * away from the file `loadAsset` reads.
   */
  lemma NoSlashIdMisfiled(storageRoot: string, id: string)
    requires '/' !in id && IsName(id) && IsName(id[..|id| - 1])
    ensures Resolve(AssetFile(storageRoot, id)) == Resolve(MediaDir(storageRoot)) + [id[..|id| - 1]] + [id]
    ensures Resolve(LoadedFile(storageRoot, id)) == Resolve(MediaDir(storageRoot)) + [id]
    ensures Resolve(AssetFile(storageRoot, id)) != Resolve(LoadedFile(storageRoot, id))
  {
    var prefix, base := id[..|id| - 1], Resolve(MediaDir(storageRoot));
    var folder := AssetFolder(storageRoot, id);
    NoSlashFolder(storageRoot, id);
    assert AssetFile(storageRoot, id) == PathJoin(folder, id);
    ResolveChild(MediaDir(storageRoot), prefix);
    assert Resolve(folder) == base + [prefix];
    ResolveChild(folder, id);
    assert Resolve(AssetFile(storageRoot, id)) == base + [prefix] + [id];
    ResolveChild(MediaDir(storageRoot), id);
    assert |base + [prefix] + [id]| != |base + [id]|;
  }

  /** Without a slash, the folder part is the id without its last character. */
  lemma NoSlashFolder(storageRoot: string, id: string)
    requires '/' !in id && id != ""
    ensures AssetFolder(storageRoot, id) == PathJoin(MediaDir(storageRoot), id[..|id| - 1])
    ensures SplitByLastSlash(id).1 == id
  {
  }

  /** So a load after a successful store of such an id finds what it found before: not the stored bytes. */
  lemma NoSlashStoreNotLoaded(fs: FileSystem, storageRoot: string, id: string, data: seq<bv8>)
    requires '/' !in id && IsName(id) && IsName(id[..|id| - 1])
    requires StoreAsset(fs, storageRoot, id, data).1.None?
    ensures var before, after := LoadAsset(fs, storageRoot, id), LoadAsset(StoreAsset(fs, storageRoot, id, data).0, storageRoot, id);
      (after.Ok? <==> before.Ok?) && (after.Ok? ==> after.value == before.value)
  {
    var stored, loaded := Resolve(AssetFile(storageRoot, id)), Resolve(LoadedFile(storageRoot, id));
    NoSlashIdMisfiled(storageRoot, id);
    var after := StoreAsset(fs, storageRoot, id, data).0;
    assert after.files == fs.files[stored := Blob(data)];
    assert (loaded in after.files <==> loaded in fs.files) && (loaded in fs.files ==> after.files[loaded] == fs.files[loaded]);
  }

  /** The upload `image.png` is written to `media/image.pn/image.png` and looked up at `media/image.png`. */
  lemma NoSlashUploadIsNotFound(storageRoot: string)
    ensures Resolve(AssetFile(storageRoot, "image.png")) == Resolve(MediaDir(storageRoot)) + ["image.pn", "image.png"]
    ensures Resolve(LoadedFile(storageRoot, "image.png")) == Resolve(MediaDir(storageRoot)) + ["image.png"]
  {
    var id := "image.png";
    assert forall i :: 0 <= i < |id| ==> id[i] != '/';
    assert id[..|id| - 1] == "image.pn";
    NoSlashIdMisfiled(storageRoot, id);
  }

  /** A one-character id without a slash leaves an empty folder part, which resolves away. */
  lemma OneCharIdAgrees(storageRoot: string, id: string)
    requires IsName(id) && |id| == 1
    ensures Resolve(AssetFile(storageRoot, id)) == Resolve(LoadedFile(storageRoot, id))
  {
    assert SplitByLastSlash(id) == ("", id);
    assert AssetFolder(storageRoot, id) == MediaDir(storageRoot) + "/";
    ResolveChild(AssetFolder(storageRoot, id), id);
    ResolveTrailingSlash(MediaDir(storageRoot));
    ResolveChild(MediaDir(storageRoot), id);
  }

  // ---------------------------------------------------------------------------------------
  // The split as evidently intended: no slash means no folder part

  /** Folder part and leaf of an id: the parts around its last slash, or nothing and the whole id. */
  function IntendedSplit(id: string): (r: (string, string))
    ensures '/' !in r.1
    ensures '/' in id ==> r.0 + "/" + r.1 == id
    ensures '/' !in id ==> r == ("", id)
  {
    if '/' in id then SplitByLastSlash(id) else ("", id)
  }

  /** The folder the corrected `storeAsset` creates. */
  function IntendedAssetFolder(storageRoot: string, id: string): string {
    MediaDir(storageRoot) + "/" + IntendedSplit(id).0
  }

  /** The file the corrected `storeAsset` writes. */
  function IntendedAssetFile(storageRoot: string, id: string): string {
    PathJoin(IntendedAssetFolder(storageRoot, id), IntendedSplit(id).1)
  }

  /** `storeAsset` with the corrected split. */
  function StoreAssetIntended(fs: FileSystem, storageRoot: string, id: string, data: seq<bv8>): (r: (FileSystem, Option<FsError>))
    ensures r.1.None? ==> r.0.files == fs.files[Resolve(IntendedAssetFile(storageRoot, id)) := Blob(data)]
    ensures r.1.Some? ==> r.0.files == fs.files
    ensures Valid(fs) ==> Valid(r.0)
  {
    StoreAt(fs, Resolve(IntendedAssetFolder(storageRoot, id)), Resolve(IntendedAssetFile(storageRoot, id)), data)
  }

  /** With the corrected split, every id is stored where it is loaded from. */
  lemma IntendedFileIsLoadedFile(storageRoot: string, id: string)
    ensures Resolve(IntendedAssetFile(storageRoot, id)) == Resolve(LoadedFile(storageRoot, id))
  {
    if '/' in id {
      AssetFileIsLoadedFile(storageRoot, id);
      assert IntendedAssetFile(storageRoot, id) == AssetFile(storageRoot, id);
    } else {
      assert IntendedAssetFolder(storageRoot, id) == MediaDir(storageRoot) + "/";
      ResolveJoin(IntendedAssetFolder(storageRoot, id), id);
      ResolveTrailingSlash(MediaDir(storageRoot));
      ResolveJoin(MediaDir(storageRoot), id);
    }
  }

  /** Store then load with the corrected split: every successful store is read back. */
  lemma StoreThenLoadIntended(fs: FileSystem, storageRoot: string, id: string, data: seq<bv8>)
    requires StoreAssetIntended(fs, storageRoot, id, data).1.None?
    ensures LoadAsset(StoreAssetIntended(fs, storageRoot, id, data).0, storageRoot, id) == Ok(Blob(data))
  {
    IntendedFileIsLoadedFile(storageRoot, id);
  }
}
