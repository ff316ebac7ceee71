# sl-board folder store, room registry and folder tree, in Dafny

The board server keeps whiteboard rooms on disk. Each room is a `board.json` snapshot
under `${BOARD_STORAGE_ROOT}/rooms/<team>/<project>/<board>`, and uploaded media live
under `${BOARD_STORAGE_ROOT}/media`. The browser shows the folders as a tree. This project
models three parts of that system and proves properties about them:

- **rooms.ts**, the server side of rooms:
  - the folder service (`ls`, `createFolder`, `removeFolder`, `renameFolder`);
  - the snapshot store (`readSnapshotIfExists`, `makeUrlsRelative`, `saveSnapshot`);
  - the in-memory registry: the `rooms` and `roomMutexes` maps, `makeOrLoadRoom`, the two
    room callbacks and the two five-second sweeps.
- **assets.ts**, the media store (`storeAsset`, `loadAsset`).
- **TreeView.tsx**, the pure and imperative logic of the folder tree:
  - `createNode`, `getSelectedNodeByKey`, `deleteNodeByKey` and `addChildNode`;
  - what `handleNewFolder`, `renameFolder` and `deleteFolder` do to the tree, and the rename
    guard;
  - `initProjects`, `loadOnExpand` and `expandTreeOnStart`.

Files, one module each:

| file | module | what it holds |
|---|---|---|
| `wrappers.dfy` | `Wrappers` | `Option` and `Result` |
| `paths.dfy` | `Paths` | the JavaScript string operations used (`lastIndexOf`, `slice`, `split`, `join`, `startsWith`), the shared `splitByLastSlash`, and how a path string resolves to path components |
| `snapshots.dfy` | `RoomSnapshots` | room snapshots and `makeUrlsRelative` |
| `fs.dfy` | `Fs` | an abstract file system: a set of directories and a map of files over component paths, with the `fs/promises` calls the server makes (`mkdir -p`, `rm -rf`, `writeFile`, `readFile`, `rename`) and their error cases |
| `rooms.dfy` | `Rooms` | the folder service and the snapshot store |
| `registry.dfy` | `Registry` | the class `RoomRegistry` and the sweep loops |
| `assets.dfy` | `Assets` | the media store, as written and with the corrected split |
| `tree.dfy` | `TreeView` | the folder tree |

How the model is shaped:

- **Registry.** The module-level maps of rooms.ts become the fields of one object,
  `RoomRegistry`, whose methods change them in place.
  - Map iteration order is insertion order in JavaScript, so the registry also keeps
    `order`.
  - The saves that the persist sweep fires are not awaited. They are recorded in `saves`,
    in the order they are issued.
  - A room object's identity is an `instance` number that every new room gets fresh. So
    a callback from a room that has since been replaced changes nothing.
- **Tree.** The widget changes the node that `getSelectedNodeByKey` returned, in place.
  That node is the first node with the key in pre-order. Nodes here are values, so such
  an update is `UpdateFirst`: the forest with that first node replaced.
- **Outside world.** The URL parser, the `readdir` order and the server's responses are
  parameters.

Some behaviour is modelled as the code has it, even where it may surprise:

- In both `rooms.ts` and `assets.ts`, `splitByLastSlash` on an input without `/` gives
  the input minus its last character as the folder part.
- A rejected room mutex stays in `roomMutexes` and makes every later `makeOrLoadRoom` of
  that id fail.
- The persist sweep deletes a closed room from `rooms` but leaves its mutex. The mutex
  sweep, which looks only at `rooms`, then never removes that mutex
  (`PersistSweepHidesClosedRooms`).

## Model

| member | source | states |
|---|---|---|
| Paths.LastIndexOf | board-server/src/server/rooms.ts:12 | the result is -1 exactly when the character is absent; otherwise it is an index holding the character with none after it |
| Paths.Slice | board-server/src/server/rooms.ts:14 | `slice` never yields more characters than the string has; for 0 <= start <= end <= length it is the characters between them, for 0 <= end <= start it is empty, and `slice(0, -1)` is the string minus its last character |
| Paths.SplitByLastSlash | board-server/src/server/rooms.ts:11-15 | with a slash in the input, the folder part is everything before the last slash, folder + "/" + leaf rebuilds the input and the leaf has no slash; without one, the leaf is the input and the folder is the input minus its last character |
| Paths.SplitByLastSlashInverse | board-server/src/server/assets.ts:12-15 | splitting folder + "/" + leaf, for a leaf without slashes, gives folder and leaf back |
| Paths.Split | board-server/src/client/components/TreeView.tsx:223 | `split('/')` gives at least one part, no part holds the separator, there is exactly one part when the separator is absent, and joining the parts gives the string back |
| Paths.SplitJoin | board-server/src/client/components/TreeView.tsx:223-227 | splitting the join of separator-free parts gives the parts back |
| Paths.LastSegment | board-server/src/server/rooms.ts:109 | `split('/').pop()` has no slash; it is everything after the last slash, and the whole string when there is no slash |
| Paths.Step | board-server/src/server/rooms.ts:41 | resolving one more plain name appends it to the path |
| Paths.ResolveJoin | board-server/src/server/rooms.ts:41 | `join(a, b)` for a slash-free `b` resolves to one resolution step of `b` after `a` |
| Paths.ResolveChild | board-server/src/server/rooms.ts:41 | `join(a, name)` names the child `name` of the folder `a` names |
| Paths.ResolveTrailingSlash | board-server/src/server/rooms.ts:29 | a trailing `/` does not change the folder a path names |
| RoomSnapshots.RelativeSrc | board-server/src/server/rooms.ts:109 | a rewritten src starts with `/ws/uploads/` and not with `http` |
| RoomSnapshots.Rewritable | board-server/src/server/rooms.ts:97-100 | the guard: an `asset` record of type `image` or `video` whose `props.src` is a string starting with `http` (a definition) |
| RoomSnapshots.RewriteDocument | board-server/src/server/rooms.ts:94-115 | the callback fails exactly when the document passes the guard and its src does not parse; a document failing the guard comes back unchanged; one passing it changes only in `props.src`, which becomes the relative URL |
| RoomSnapshots.RewriteDocuments | board-server/src/server/rooms.ts:94-115 | the map fails exactly when some guarded src does not parse; otherwise it keeps the count and order, leaves unguarded documents unchanged, and changes a guarded one only in `props.src`, to `/ws/uploads/` plus the last segment of the pathname |
| RoomSnapshots.MakeUrlsRelative | board-server/src/server/rooms.ts:93-118 | fails exactly when a guarded src does not parse; otherwise the documents are the result of the documents map (count and order kept, unguarded ones unchanged, guarded ones changed only in `props.src`), and clock and schema are kept |
| RoomSnapshots.NoneRewritableAfter | board-server/src/server/rooms.ts:97-112 | after the rewrite no document passes the guard |
| RoomSnapshots.RewriteDocumentsIdentity | board-server/src/server/rooms.ts:114 | documents that all fail the guard are returned unchanged |
| RoomSnapshots.MakeUrlsRelativeIdempotent | board-server/src/server/rooms.ts:93-118 | rewriting an already rewritten snapshot changes nothing |
| Fs.Mkdir | board-server/src/server/rooms.ts:67 | recursive `mkdir` fails exactly when the path or an ancestor is a file; otherwise the path and all its ancestors are directories, files are unchanged, only ancestors of the path are added, and well-formedness is kept |
| Fs.MkdirIdempotent | board-server/src/server/rooms.ts:67 | a second recursive `mkdir` of the same path changes nothing |
| Fs.Remove | board-server/src/server/rooms.ts:75 | `rm -rf` leaves nothing at or below the path, leaves everything else as it was, and keeps well-formedness |
| Fs.RemoveIdempotent | board-server/src/server/rooms.ts:75 | removing twice is removing once |
| Fs.WriteFile | board-server/src/server/rooms.ts:132 | `writeFile` succeeds exactly when the path is not a directory and its parent is one; the file then holds the content and nothing else changes |
| Fs.ReadFile | board-server/src/server/rooms.ts:84 | `readFile` succeeds exactly on a file and returns its content |
| Fs.Rename | board-server/src/server/rooms.ts:58 | `rename` succeeds exactly when the source exists and either the target is the source, or the target is outside the source, absent, and its parent is a directory; renaming a path to itself changes nothing |
| Fs.RenameMoves | board-server/src/server/rooms.ts:58 | after a successful rename nothing remains at the source, and everything at source + r is now at target + r, a file with the same content |
| Fs.RenameFrame | board-server/src/server/rooms.ts:58 | a successful rename keeps every directory and file outside the source and target subtrees, each file with its content |
| Fs.RenameOnlyMoves | board-server/src/server/rooms.ts:58 | after a successful rename nothing is at or below the source, and every directory or file was before a directory or file at the same place with the target swapped back for the source |
| Fs.RenameKeepsValid | board-server/src/server/rooms.ts:58 | a successful rename keeps the tree well formed |
| Rooms.EmptyUrlIsRoomsDir | board-server/src/server/rooms.ts:29 | `ls('')` lists the rooms directory itself |
| Rooms.Subfolders | board-server/src/server/rooms.ts:40-47 | the entries kept are exactly the listed entries that are directories |
| Rooms.SubfoldersOfListing | board-server/src/server/rooms.ts:37-49 | over a complete `readdir` listing, the result holds exactly the child directories |
| Rooms.Ls | board-server/src/server/rooms.ts:28-50 | `[]` when the path does not exist; a rejection when it is a file; otherwise the subdirectory names in `readdir` order |
| Rooms.CreateFolder | board-server/src/server/rooms.ts:64-69 | fails exactly when a prefix of the folder path is a file; otherwise the folder exists as a directory, files are unchanged, no directory is lost, the only directories added are the folder and its ancestors, and well-formedness is kept |
| Rooms.CreateFolderIdempotent | board-server/src/server/rooms.ts:64-69 | creating a folder twice is creating it once |
| Rooms.RemoveFolder | board-server/src/server/rooms.ts:72-77 | never fails; nothing remains at or below the folder; outside it every directory stays a directory and every file stays a file with its content, nothing is added, and well-formedness is kept |
| Rooms.RemoveFolderIdempotent | board-server/src/server/rooms.ts:72-77 | removing a folder twice is removing it once |
| Rooms.RenameFolder | board-server/src/server/rooms.ts:53-61 | succeeds exactly under the `rename` conditions on the two room folders, and then keeps well-formedness; the rejection propagates otherwise (what moves and what stays is `Fs.RenameMoves`, `Fs.RenameFrame` and `Fs.RenameOnlyMoves`) |
| Rooms.RenameFolderLeavesNoOldFolder | board-server/src/server/rooms.ts:53-61 | after renaming between two different folders, the old folder is gone and the new one exists |
| Rooms.ReadSnapshotIfExists | board-server/src/server/rooms.ts:80-90 | a snapshot exactly when `join(DIR, roomId)` is a file holding one, and then that snapshot; `undefined` otherwise |
| Rooms.SnapshotFolder | board-server/src/server/rooms.ts:122-124 | for a room id with a slash, the folder is the rooms directory joined with the id up to its last slash; without one, with the id minus its last character |
| Rooms.SnapshotFile | board-server/src/server/rooms.ts:122-130 | for a room id with a slash, the file is the rooms directory joined with the whole id; without one, the id minus its last character, then the id |
| Rooms.SaveSnapshot | board-server/src/server/rooms.ts:121-133 | on success the files are the old files with the snapshot file set to the rewritten snapshot; on any error the files are unchanged; the URL error happens exactly when the folder was made and a URL does not parse; directories are kept and the only ones added are the folder and its ancestors; well-formedness is kept |
| Rooms.SnapshotFileIsReadPath | board-server/src/server/rooms.ts:121-133 | for a room id with a slash, the file saved is the file `readSnapshotIfExists` reads |
| Rooms.SaveThenRead | board-server/src/server/rooms.ts:80-133 | after a successful save, reading the room gives the snapshot with its URLs made relative |
| Rooms.SaveSucceeds | board-server/src/server/rooms.ts:121-133 | a save succeeds when the folder can be made, the leaf is a plain name that is not a directory, and every URL parses |
| Registry.InitialContent | board-server/src/server/rooms.ts:167-173 | a new room starts from the stored snapshot when there is one, else from the empty document |
| Registry.PersistedRooms | board-server/src/server/rooms.ts:202-215 | after the persist sweep, exactly the open rooms remain, each with its flag cleared and its room unchanged |
| Registry.OpenRooms | board-server/src/server/rooms.ts:219-227 | after the mutex sweep, exactly the open rooms remain, unchanged |
| Registry.SweptMutexes | board-server/src/server/rooms.ts:219-227 | after the mutex sweep, exactly the mutexes of ids that are not closed registered rooms remain, unchanged |
| Registry.OpenOrder | board-server/src/server/rooms.ts:203-212 | the iteration order after the deletions is no longer than before (its members are `Registry.OpenOrderMembers`) |
| Registry.DirtySaves | board-server/src/server/rooms.ts:203-209 | the sweep issues at most one save per room visited (which saves is `Registry.DirtySavesSound` and `Registry.DirtySavesComplete`) |
| Registry.OpenOrderMembers | board-server/src/server/rooms.ts:212 | the iteration order after the deletions lists exactly the open rooms |
| Registry.OpenOrderNoDuplicates | board-server/src/server/rooms.ts:212 | deleting entries keeps the iteration order free of repeats |
| Registry.DirtySavesSound | board-server/src/server/rooms.ts:204-209 | every save issued is for a visited room that needed persisting, and carries that room's current snapshot |
| Registry.DirtySavesComplete | board-server/src/server/rooms.ts:204-209 | every visited room that needed persisting gets a save |
| Registry.DirtySavesUnique | board-server/src/server/rooms.ts:203-209 | when each room is visited once, no room gets two saves in one sweep |
| Registry.NoSavesWhenClean | board-server/src/server/rooms.ts:204-206 | a sweep over rooms whose flags are all clear issues no save, so a second sweep with no change in between saves nothing |
| Registry.PersistSweepHidesClosedRooms | board-server/src/server/rooms.ts:210-227 | once the persist sweep has deleted a closed room, the mutex sweep finds no closed room and keeps every mutex, that room's included |
| Registry.PersistLoop | board-server/src/server/rooms.ts:203-214 | the loop over the rooms in iteration order yields the persisted rooms, the order of the open rooms and the saves of the dirty rooms |
| Registry.MutexLoop | board-server/src/server/rooms.ts:220-226 | the loop yields the open rooms, the swept mutexes and the order of the open rooms |
| Registry.RegisterKeepsCoherent | board-server/src/server/rooms.ts:186 | registering a fresh room under its id keeps every entry filed under its own id, the order free of repeats and in step with the map |
| Registry.RoomRegistry.constructor | board-server/src/server/rooms.ts:141-146 | both maps start empty |
| Registry.RoomRegistry.MakeOrLoadRoom | board-server/src/server/rooms.ts:148-199 | a stored rejected mutex fails the call and changes nothing; an open registered room is returned unchanged; otherwise a fresh room is built from the stored snapshot and registered, or, when construction throws, the call fails and a rejected mutex is stored |
| Registry.RoomRegistry.DataChanged | board-server/src/server/rooms.ts:181-183 | a change in the registered room object sets its `needsPersist` and its content; a stale object changes nothing |
| Registry.RoomRegistry.SessionRemoved | board-server/src/server/rooms.ts:174-180 | the registered room closes exactly when no session remains; a stale object changes nothing |
| Registry.RoomRegistry.PersistSweep | board-server/src/server/rooms.ts:202-215 | rooms become the persisted rooms, the order keeps the open ones, the saves of the dirty rooms are issued in order, and the mutexes stay |
| Registry.RoomRegistry.MutexSweep | board-server/src/server/rooms.ts:219-227 | closed rooms leave both maps; everything else stays |
| Assets.StoreAt | board-server/src/server/assets.ts:23-27 | succeeds exactly when the folder can be made and the file written; the file then holds the data; on failure no file changes; directories only grow |
| Assets.StoreAsset | board-server/src/server/assets.ts:18-28 | on success the asset file holds the data; on failure files are unchanged; well-formedness is kept |
| Assets.LoadAsset | board-server/src/server/assets.ts:31-36 | succeeds exactly when `join(DIR, id)` is a file, and returns its content |
| Assets.AssetFolder | board-server/src/server/assets.ts:19-21 | for an id with a slash, the folder is the media directory joined with the id up to its last slash; without one, with the id minus its last character |
| Assets.AssetFile | board-server/src/server/assets.ts:19-25 | for an id with a slash, the file is the media directory joined with the whole id; without one, the id minus its last character, then the id |
| Assets.LoadedFile | board-server/src/server/assets.ts:32 | the file read is `join(DIR, id)` (a definition) |
| Assets.AssetFileIsLoadedFile | board-server/src/server/assets.ts:18-36 | for an id with a slash, the file stored is the file loaded |
| Assets.StoreThenLoad | board-server/src/server/assets.ts:18-36 | for an id with a slash, a successful store is loaded back byte for byte |
| Assets.StoreSucceeds | board-server/src/server/assets.ts:18-28 | a store succeeds when the folder path has no file and the leaf is a plain name that is not a directory |
| Assets.NoSlashIdMisfiled | board-server/src/server/assets.ts:12-32 | an id without a slash is stored at media/<id minus its last character>/<id> but loaded from media/<id>, a different path |
| Assets.NoSlashStoreNotLoaded | board-server/src/server/assets.ts:18-35 | for such an id, a successful store does not change what a load returns |
| Assets.NoSlashUploadIsNotFound | board-server/src/server/assets.ts:12-32 | `image.png` is stored at media/image.pn/image.png and loaded from media/image.png |
| Assets.OneCharIdAgrees | board-server/src/server/assets.ts:12-32 | a one-character id without a slash has an empty folder part, so store and load agree |
| Assets.IntendedSplit | board-server/src/server/assets.ts:12-15 | the corrected split: the parts around the last slash, or no folder and the whole id |
| Assets.StoreAssetIntended | board-server/src/server/assets.ts:18-28 | the corrected store writes the data at the corrected path, and changes no file on failure |
| Assets.IntendedFileIsLoadedFile | board-server/src/server/assets.ts:18-36 | with the corrected split, every id is stored where it is loaded from |
| Assets.StoreThenLoadIntended | board-server/src/server/assets.ts:18-36 | with the corrected split, every successful store is loaded back byte for byte |
| TreeView.CreateNode | board-server/src/client/components/TreeView.tsx:25-35 | the node has the key as key and id, the name as label, is no leaf and has no children |
| TreeView.GetSelectedNodeByKey | board-server/src/client/components/TreeView.tsx:172-185 | finds a node exactly when some node at any depth has the key; the node found has the key and is in the tree |
| TreeView.LookupIsFirstInPreorder | board-server/src/client/components/TreeView.tsx:172-185 | the node found is the first node with the key in the pre-order listing |
| TreeView.HasKeyFlatten | board-server/src/client/components/TreeView.tsx:172-185 | a key is in the tree exactly when it is in the pre-order listing |
| TreeView.DeleteNodeByKey | board-server/src/client/components/TreeView.tsx:266-277 | no node with the key is left, at any depth, and the top level does not grow |
| TreeView.DeleteKeepsUnremoved | board-server/src/client/components/TreeView.tsx:266-277 | a key is left exactly when it belongs to a node outside every removed subtree |
| TreeView.DeleteAbsentIsIdentity | board-server/src/client/components/TreeView.tsx:266-277 | deleting a key no node has changes nothing, so deleting twice is deleting once |
| TreeView.DeleteFiltersTopLevel | board-server/src/client/components/TreeView.tsx:267-276 | at the top level the deletion is a filter that keeps the other nodes in order |
| TreeView.FilterKey | board-server/src/client/components/TreeView.tsx:276 | the filter keeps exactly the nodes not keyed by the key, and never more nodes than it was given |
| TreeView.MapDelete | board-server/src/client/components/TreeView.tsx:268-275 | the map keeps the length, and each node its key and id |
| TreeView.DeleteIsMapThenFilter | board-server/src/client/components/TreeView.tsx:266-277 | at every depth the deletion is the map that deletes within each node's children followed by the filter of the nodes keyed by the key, so the survivors keep their order and their other fields |
| TreeView.AddChildNode | board-server/src/client/components/TreeView.tsx:280-290 | the top level keeps its length, and each top-level node keeps its key, id and label; a node matching the context-menu key or the given key gets the new node appended to its children and stops being a leaf; any other node keeps its leaf flag and has the addition applied to its children with only the context-menu key |
| TreeView.AddChildWithoutKeysIsIdentity | board-server/src/client/components/TreeView.tsx:280-290 | with neither key set, the tree is returned as it was |
| TreeView.GivenKeyOnlyAtTopLevel | board-server/src/client/components/TreeView.tsx:286 | the given key is honoured only at the top level |
| TreeView.AddChildPlacesNewNode | board-server/src/client/components/TreeView.tsx:280-290 | adding under a key that is in the tree puts the new node in the tree |
| TreeView.UpdateFirst | board-server/src/client/components/TreeView.tsx:260 | an update of the looked-up node keeps the top-level length, and changes nothing when the key is absent |
| TreeView.UpdateFirstPlacesResult | board-server/src/client/components/TreeView.tsx:260 | the updated node is in the tree |
| TreeView.UpdateFirstThenLookup | board-server/src/client/components/TreeView.tsx:258-260 | when the update keeps the key, looking it up again finds the updated node |
| TreeView.UpdateFirstKeepsKeys | board-server/src/client/components/TreeView.tsx:260 | an update that keeps the node's key and its children's keys loses no key of the tree |
| TreeView.ChildKeySplits | board-server/src/client/components/TreeView.tsx:252 | a child's key splits back into its parent's key and its name |
| TreeView.HandleNewFolder | board-server/src/client/components/TreeView.tsx:251-264 | fails exactly when no node has the selected key; otherwise the new node is pushed onto that node's children |
| TreeView.NewFolderUnderParent | board-server/src/client/components/TreeView.tsx:251-264 | afterwards the parent is found with the new node as its last child, and no key is lost |
| TreeView.RenameRefused | board-server/src/client/components/TreeView.tsx:440-444 | the rename is refused exactly for a key without a slash, that is a top-level folder |
| TreeView.RenameKeepsParent | board-server/src/client/components/TreeView.tsx:376-378 | the new key keeps the parent part of the old key and ends in the new name |
| TreeView.RenameInTree | board-server/src/client/components/TreeView.tsx:374-383 | fails exactly when no node has the key; otherwise the looked-up node gets the new key, id and label, and the new key is returned |
| TreeView.RenamedNodeInTree | board-server/src/client/components/TreeView.tsx:374-383 | afterwards the tree holds the node under its new key, with its old children |
| TreeView.DeleteFolder | board-server/src/client/components/TreeView.tsx:347-352 | a null or empty key changes nothing; otherwise the key is gone and exactly the keys outside the removed subtrees remain |
| TreeView.InitProjects | board-server/src/client/components/TreeView.tsx:189-213 | one top-level node per listed project, in listing order; none when the listing fails |
| TreeView.ProjectsAreTopLevel | board-server/src/client/components/TreeView.tsx:198-203 | the top-level keys are the projects in order, and each project can be looked up |
| TreeView.ListedChildren | board-server/src/client/components/TreeView.tsx:309-318 | no more children than listed items |
| TreeView.ListedChildrenMembers | board-server/src/client/components/TreeView.tsx:309-318 | each child loaded is a fresh node for a listed folder, keyed under the parent and not already in the searched tree; every listed folder not already there is loaded |
| TreeView.Expanded | board-server/src/client/components/TreeView.tsx:292-326 | the children a node has after `loadOnExpand`: its own when it has some, none when the listing fails, otherwise the listed folders not already in the tree (a definition) |
| TreeView.LoadOnExpand | board-server/src/client/components/TreeView.tsx:292-326 | a node with children keeps them; a failed listing loads nothing; otherwise the children are the listed folders not already in the tree (the three cases of `Expanded`) |
| TreeView.BoardPath | board-server/src/client/components/TreeView.tsx:216-220 | a missing or empty `board` parameter becomes `home`; any other value is kept |
| TreeView.PrefixPathsAre | board-server/src/client/components/TreeView.tsx:222-227 | the k-th path visited is the first k + 1 parts joined by `/` |
| TreeView.LastPrefixIsPath | board-server/src/client/components/TreeView.tsx:222-227 | the last path visited is the board path itself |
| TreeView.PrefixPaths | board-server/src/client/components/TreeView.tsx:222-227 | one path is visited per part of the board path |
| TreeView.RenamedKey | board-server/src/client/components/TreeView.tsx:376-378 | for a key with a slash, the new key is the key up to its last slash, then `/` and the new name; for a key without one, the key minus its last character, then `/` and the new name |
| TreeView.Walk | board-server/src/client/components/TreeView.tsx:225-247 | the tree and the expanded keys after the visited paths, each visit expanding the first node with that key in the tree as the earlier visits left it and marking the key expanded, or changing nothing when no node has it (a definition) |
| TreeView.WalkExpandsFound | board-server/src/client/components/TreeView.tsx:225-247 | a key ends up marked expanded exactly when it is one of the visited paths and a node with that key was in the tree at its own visit |
| TreeView.ExpandTreeOnStart | board-server/src/client/components/TreeView.tsx:215-249 | visits every prefix of the board path in order; the tree and the expanded keys are those of `Walk`, which expands the node of each visited path in the tree as the earlier visits left it; marks expanded only visited paths, and every visited path that is a node of the initial tree; loses no node key; selects the board path |
| TreeView.ExpandAlong | board-server/src/client/components/TreeView.tsx:222-247 | the loop over the parts visits each prefix in order and ends with the tree and the expanded keys of `Walk` over those prefixes, keeping the other promises for each prefix |
| TreeView.ExpandNode | board-server/src/client/components/TreeView.tsx:230-245 | a path with a node in the tree gets the first node with that key in pre-order replaced by it with the children `loadOnExpand` gives (`Expanded`); any other path changes nothing; found exactly when the path is a key of the tree; no key is lost |
| TreeView.ExpansionKeepsKeys | board-server/src/client/components/TreeView.tsx:240 | loading the children of the looked-up node loses no key |

## Left out

- Logging (`console.log`), toasts, the loading spinner, React state setters, re-rendering,
  navigation and the dialogs. These are UI effects that do not change the models above.
- The HTTP requests of the tree widget, `mkdir`, `rmdir` and `rename`. Their responses
  decide only which toast appears and whether the widget navigates home and clears the
  selection, both UI effects of the bullet above. The `ls` responses are parameters
  (`listing`, `Option<seq<string>>`, with `None` when the request or JSON parsing throws).
- Concurrency and timers. The two `setInterval` sweeps are methods called whole.
  `makeOrLoadRoom` is atomic per room id, which the promise chain ensures. Saves fired by
  the sweep are recorded, not awaited.
- `JSON.parse` and `JSON.stringify`. A file holds either a serialised snapshot or raw
  bytes, and content that does not parse counts as no snapshot.
- The WHATWG URL parser is a parameter, `pathname: string -> Option<string>`.
- The order of `readdir` is a parameter; the model requires it to list every child once.
- The internals of `TLSocketRoom` and the sync protocol. A room is its content, its
  session count and whether it is closed. Whether the constructor throws is the `builds`
  parameter. The empty room that the library builds without a snapshot is
  `FreshRoomContent`.
- Symbolic links, permissions, disk-full errors and the exact error code of each failure.
- `rename` of a folder onto an existing empty directory, and of a file onto an existing
  file, which POSIX allows (replacing the target) and the model rejects.
- Paths are resolved relative to the storage root as the string gives it. `..` cannot go
  above the root. The current-directory prefix of a relative root is not modelled.
- Tree nodes are values. Aliasing between the node returned by `getSelectedNodeByKey`
  and the tree it came from is captured only through `UpdateFirst`.
- The `icon` field of a node, and the `FOLDER_OPEN` icon that `loadOnExpand` sets.
- `children` is always present, since every node the widget builds comes from `createNode`.
- `loadOnExpand` searches the widget's `nodes` state, which at start-up is still the empty
  initial state. It is the `lookup` parameter.
- `renameFolder` does not update the keys of the renamed node's descendants, and neither
  does the model (`RenamedNodeInTree` keeps the old children).
- `selectedNodeKey` being `null` in `handleNewFolder` and `renameFolder` leads to the
  string `"null"` or a `TypeError`. The model takes the key as a string.
- Assets.NoSlashStoreNotLoaded: states that the load's success and value are unchanged,
  not that the whole result (including which error) is unchanged, because the error code
  of a failed read is not modelled.
- Assets.StoreAsset: the stream is its bytes (`data`). Streaming and partial writes are not
  modelled.

## Findings

| source | as written | input that shows it | evidently intended | confidence | as-written member | corrected member |
|---|---|---|---|---|---|---|
| board-server/src/server/assets.ts:12-15 | for an id without `/`, `lastIndexOf` is -1, so `slice(0, -1)` makes the folder part the id minus its last character and the leaf the whole id; `storeAsset` then writes media/<id minus last char>/<id> while `loadAsset` reads media/<id> | id `image.png`: stored at media/image.pn/image.png, looked up at media/image.png | no slash means no folder part, so the file lands at media/<id> and is found by `loadAsset` | low (the editor's uploads always carry date slashes, board-server/src/client/pages/Editor.tsx:119-122); not executed | Assets.NoSlashUploadIsNotFound | Assets.IntendedFileIsLoadedFile |
