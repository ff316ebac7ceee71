/**
 * The room registry of rooms.ts: the module-level maps `rooms` (room id to room state)
 * and `roomMutexes` (room id to the tail of its promise chain), `makeOrLoadRoom`, the two
 * callbacks each room is built with, and the two five-second sweeps.
 *
 * Each call runs to completion before the next one starts (the promise chain makes
 * `makeOrLoadRoom` atomic per room id). Saves are not awaited by the sweep: they are
 * recorded as requests, in the order they are issued.
 */
module Registry {
  import opened Wrappers
  import opened RoomSnapshots
  import opened Fs
  import opened Rooms

  /**
   * The sync library's room object, as far as the registry sees it. `instance` stands for
   * the object's identity: every `new TLSocketRoom` gets a number no earlier room had.
   */
  datatype Room = Room(instance: nat, content: Snapshot, sessions: nat, closed: bool)

  /** `RoomState`: the room, its id and whether it has changed since it was last saved. */
  datatype RoomState = RoomState(room: Room, id: string, needsPersist: bool)

  /** The promise stored in `roomMutexes`: settled normally, or rejected. */
  datatype Mutex = Resolved | Rejected

  /** One `saveSnapshot(id, snapshot)` call issued by the persist sweep. */
  datatype SaveRequest = SaveRequest(roomId: string, snapshot: Snapshot)

  /** The content a room starts from when no snapshot was stored (the library's empty document). */
  const FreshRoomContent: Snapshot := Snapshot([], 0, "")

  /** What a new room starts from: the stored snapshot, or the empty document when there is none. */
  function InitialContent(fs: FileSystem, storageRoot: string, roomId: string): (s: Snapshot)
    ensures ReadSnapshotIfExists(fs, storageRoot, roomId).Some? ==> s == ReadSnapshotIfExists(fs, storageRoot, roomId).value
    ensures ReadSnapshotIfExists(fs, storageRoot, roomId).None? ==> s == FreshRoomContent
  {
    var initial := ReadSnapshotIfExists(fs, storageRoot, roomId);
    if initial.Some? then initial.value else FreshRoomContent
  }

  predicate NoDuplicates(s: seq<string>) {
    forall i, j :: 0 <= i < j < |s| ==> s[i] != s[j]
  }

  // ---------------------------------------------------------------------------------------
  // What one sweep does to a registry, as functions of the state before it

  /** The rooms that remain after the persist sweep: the open ones, all with the flag cleared. */
  function PersistedRooms(m: map<string, RoomState>): (r: map<string, RoomState>)
    ensures forall k :: k in r <==> k in m && !m[k].room.closed
    ensures forall k :: k in r ==> !r[k].needsPersist && r[k].room == m[k].room && r[k].id == m[k].id
  {
    map k | k in m && !m[k].room.closed :: m[k].(needsPersist := false)
  }

  /** The rooms that remain after the mutex sweep: exactly the open ones, unchanged. */
  function OpenRooms(m: map<string, RoomState>): (r: map<string, RoomState>)
    ensures forall k :: k in r <==> k in m && !m[k].room.closed
    ensures forall k :: k in r ==> r[k] == m[k]
  {
    map k | k in m && !m[k].room.closed :: m[k]
  }

  /** The mutexes that remain after the mutex sweep: all but those of closed registered rooms. */
  function SweptMutexes(mutexes: map<string, Mutex>, m: map<string, RoomState>): (r: map<string, Mutex>)
    ensures forall k :: k in r <==> k in mutexes && !(k in m && m[k].room.closed)
    ensures forall k :: k in r ==> r[k] == mutexes[k]
  {
    map k | k in mutexes && !(k in m && m[k].room.closed) :: mutexes[k]
  }

  /** The iteration order of `rooms` after closed entries are deleted. */
  function OpenOrder(ks: seq<string>, m: map<string, RoomState>): (r: seq<string>)
    requires forall i :: 0 <= i < |ks| ==> ks[i] in m
    ensures |r| <= |ks|
  {
    if ks == [] then []
    else
      var init, last := ks[..|ks| - 1], ks[|ks| - 1];
      OpenOrder(init, m) + (if m[last].room.closed then [] else [last])
  }

  /** The iteration order after the deletions lists exactly the open rooms that were listed. */
  lemma {:induction false} OpenOrderMembers(ks: seq<string>, m: map<string, RoomState>)
    requires forall i :: 0 <= i < |ks| ==> ks[i] in m
    ensures forall k :: k in OpenOrder(ks, m) <==> k in ks && !m[k].room.closed
  {
    if ks != [] {
      var init, last := ks[..|ks| - 1], ks[|ks| - 1];
      OpenOrderMembers(init, m);
      assert ks == init + [last];
    }
  }

  /** Deleting entries keeps the iteration order free of repeats. */
  lemma {:induction false} OpenOrderNoDuplicates(ks: seq<string>, m: map<string, RoomState>)
    requires forall i :: 0 <= i < |ks| ==> ks[i] in m
    requires NoDuplicates(ks)
    ensures NoDuplicates(OpenOrder(ks, m))
  {
    if ks != [] {
      var init, last := ks[..|ks| - 1], ks[|ks| - 1];
      assert NoDuplicates(init);
      OpenOrderNoDuplicates(init, m);
      assert last !in init by {
        forall i | 0 <= i < |init| ensures init[i] != last { assert ks[i] == init[i]; }
      }
      OpenOrderMembers(init, m);
    }
  }

  /**
   * The save requests the persist sweep issues when it visits `ks` in order: each is for
   * a visited room that needs persisting and carries that room's current snapshot.
   */
  function DirtySaves(ks: seq<string>, m: map<string, RoomState>): (r: seq<SaveRequest>)
    requires forall i :: 0 <= i < |ks| ==> ks[i] in m
    ensures |r| <= |ks|
  {
    if ks == [] then []
    else
      var init, last := ks[..|ks| - 1], ks[|ks| - 1];
      DirtySaves(init, m) + (if m[last].needsPersist then [SaveRequest(last, m[last].room.content)] else [])
  }

  /** Each save request is for a visited room that needs persisting and carries its snapshot. */
  lemma {:induction false} DirtySavesSound(ks: seq<string>, m: map<string, RoomState>, j: nat)
    requires forall i :: 0 <= i < |ks| ==> ks[i] in m
    requires j < |DirtySaves(ks, m)|
    ensures var r := DirtySaves(ks, m)[j];
      r.roomId in ks && m[r.roomId].needsPersist && r.snapshot == m[r.roomId].room.content
  {
    var init, last := ks[..|ks| - 1], ks[|ks| - 1];
    var head := DirtySaves(init, m);
    if j < |head| {
      DirtySavesSound(init, m, j);
      assert DirtySaves(ks, m)[j] == head[j];
      assert forall k :: k in init ==> k in ks;
    }
  }

  /** Every visited room that needs persisting gets a save request. */
  lemma {:induction false} DirtySavesComplete(ks: seq<string>, m: map<string, RoomState>, k: string)
    requires forall i :: 0 <= i < |ks| ==> ks[i] in m
    requires k in ks && m[k].needsPersist
    ensures exists j :: 0 <= j < |DirtySaves(ks, m)| && DirtySaves(ks, m)[j].roomId == k
  {
    var init, last := ks[..|ks| - 1], ks[|ks| - 1];
    var head := DirtySaves(init, m);
    if k == last {
      assert DirtySaves(ks, m)[|head|].roomId == k;
    } else {
      var i :| 0 <= i < |ks| && ks[i] == k;
      assert init[i] == k;
      DirtySavesComplete(init, m, k);
      var j :| 0 <= j < |head| && head[j].roomId == k;
      assert DirtySaves(ks, m)[j] == head[j];
    }
  }

  /** When every room is visited once, no room gets two save requests. */
  lemma {:induction false} DirtySavesUnique(ks: seq<string>, m: map<string, RoomState>)
    requires forall i :: 0 <= i < |ks| ==> ks[i] in m
    requires NoDuplicates(ks)
    ensures forall j1, j2 :: 0 <= j1 < j2 < |DirtySaves(ks, m)| ==>
      DirtySaves(ks, m)[j1].roomId != DirtySaves(ks, m)[j2].roomId
  {
    if ks != [] {
      var init, last := ks[..|ks| - 1], ks[|ks| - 1];
      var head := DirtySaves(init, m);
      assert NoDuplicates(init);
      DirtySavesUnique(init, m);
      assert last !in init by {
        forall i | 0 <= i < |init| ensures init[i] != last { assert ks[i] == init[i]; }
      }
      var r := DirtySaves(ks, m);
      forall j | 0 <= j < |head| ensures r[j] == head[j] && head[j].roomId in init {
        DirtySavesSound(init, m, j);
      }
    }
  }

  /** The rooms after the persist sweep has visited the ids in `visited`. */
  function PersistedSoFar(m: map<string, RoomState>, visited: seq<string>): map<string, RoomState> {
    map k | k in m && (k !in visited || !m[k].room.closed) :: if k in visited then m[k].(needsPersist := false) else m[k]
  }

  /** The rooms after the mutex sweep has visited the ids in `visited`. */
  function OpenSoFar(m: map<string, RoomState>, visited: seq<string>): map<string, RoomState> {
    map k | k in m && (k !in visited || !m[k].room.closed) :: m[k]
  }

  /** The mutexes after the mutex sweep has visited the ids in `visited`. */
  function SweptSoFar(mutexes: map<string, Mutex>, m: map<string, RoomState>, visited: seq<string>): map<string, Mutex> {
    map k | k in mutexes && !(k in visited && k in m && m[k].room.closed) :: mutexes[k]
  }

  /** Visiting one more room in the persist sweep: clear its flag, then delete it if closed. */
  lemma PersistStep(m: map<string, RoomState>, visited: seq<string>, k: string)
    requires k in m && k !in visited
    ensures k in PersistedSoFar(m, visited) && PersistedSoFar(m, visited)[k] == m[k]
    ensures var cur, next := PersistedSoFar(m, visited), PersistedSoFar(m, visited + [k]);
      (m[k].needsPersist && m[k].room.closed ==> next == cur[k := m[k].(needsPersist := false)] - {k}) &&
      (m[k].needsPersist && !m[k].room.closed ==> next == cur[k := m[k].(needsPersist := false)]) &&
      (!m[k].needsPersist && m[k].room.closed ==> next == cur - {k}) &&
      (!m[k].needsPersist && !m[k].room.closed ==> next == cur)
  {
  }

  /** Visiting one more room in the mutex sweep: a closed room loses its entry in both maps. */
  lemma MutexStep(m: map<string, RoomState>, mutexes: map<string, Mutex>, visited: seq<string>, k: string)
    requires k in m && k !in visited
    ensures k in OpenSoFar(m, visited) && OpenSoFar(m, visited)[k] == m[k]
    ensures OpenSoFar(m, visited + [k]) == if m[k].room.closed then OpenSoFar(m, visited) - {k} else OpenSoFar(m, visited)
    ensures SweptSoFar(mutexes, m, visited + [k]) ==
      if m[k].room.closed then SweptSoFar(mutexes, m, visited) - {k} else SweptSoFar(mutexes, m, visited)
  {
  }

  /** A sweep that has visited every key has done all it does. */
  lemma SweepComplete(m: map<string, RoomState>, mutexes: map<string, Mutex>, keys: seq<string>)
    requires forall k :: k in m <==> k in keys
    ensures PersistedSoFar(m, keys) == PersistedRooms(m)
    ensures OpenSoFar(m, keys) == OpenRooms(m)
    ensures SweptSoFar(mutexes, m, keys) == SweptMutexes(mutexes, m)
  {
  }

  /** One more step of a sweep over `ks`: the visited prefix grows by an element not visited before. */
  lemma SweepStep(ks: seq<string>, i: nat, m: map<string, RoomState>)
    requires i < |ks| && NoDuplicates(ks)
    requires forall j :: 0 <= j < |ks| ==> ks[j] in m
    ensures ks[i] !in ks[..i]
    ensures ks[..i + 1] == ks[..i] + [ks[i]]
    ensures m[ks[i]].room.closed ==> OpenOrder(ks[..i + 1], m) == OpenOrder(ks[..i], m)
    ensures !m[ks[i]].room.closed ==> OpenOrder(ks[..i + 1], m) == OpenOrder(ks[..i], m) + [ks[i]]
    ensures m[ks[i]].needsPersist ==>
      DirtySaves(ks[..i + 1], m) == DirtySaves(ks[..i], m) + [SaveRequest(ks[i], m[ks[i]].room.content)]
    ensures !m[ks[i]].needsPersist ==> DirtySaves(ks[..i + 1], m) == DirtySaves(ks[..i], m)
  {
    assert ks[..i + 1] == ks[..i] + [ks[i]];
    assert ks[..i + 1][..i] == ks[..i];
  }

  /** A second persist sweep with no change in between saves nothing. */
  lemma {:induction false} NoSavesWhenClean(ks: seq<string>, m: map<string, RoomState>)
    requires forall i :: 0 <= i < |ks| ==> ks[i] in m && !m[ks[i]].needsPersist
    ensures DirtySaves(ks, m) == []
  {
    if ks != [] {
      NoSavesWhenClean(ks[..|ks| - 1], m);
    }
  }

  /**
   * The two sweeps run in this order every five seconds: after the persist sweep has
   * deleted the closed rooms from `rooms`, the mutex sweep finds none, so their mutexes stay.
   */
  lemma PersistSweepHidesClosedRooms(m: map<string, RoomState>, mutexes: map<string, Mutex>, k: string)
    requires k in m && m[k].room.closed && k in mutexes
    ensures k !in PersistedRooms(m)
    ensures OpenRooms(PersistedRooms(m)) == PersistedRooms(m)
    ensures SweptMutexes(mutexes, PersistedRooms(m)) == mutexes
  {
  }

  // ---------------------------------------------------------------------------------------
  // The two sweep loops, over the registry's contents as values

  /** Every entry is filed under its own id. */
  predicate FiledById(m: map<string, RoomState>) {
    forall k :: k in m ==> m[k].id == k
  }

  /**
   * The loop of the persist sweep over `m`, visiting `keys` (the iteration order) one by
   * one: returns the rooms left, their iteration order and the save requests issued.
   */
  method PersistLoop(keys: seq<string>, m: map<string, RoomState>)
    returns (current: map<string, RoomState>, kept: seq<string>, issued: seq<SaveRequest>)
    requires NoDuplicates(keys) && FiledById(m)
    requires forall k :: k in m <==> k in keys
    ensures current == PersistedRooms(m)
    ensures kept == OpenOrder(keys, m)
    ensures issued == DirtySaves(keys, m)
  {
    current, kept, issued := m, [], [];
    var i := 0;
    while i < |keys|
      invariant 0 <= i <= |keys|
      invariant current == PersistedSoFar(m, keys[..i])
      invariant kept == OpenOrder(keys[..i], m)
      invariant issued == DirtySaves(keys[..i], m)
    {
      var k := keys[i];
      SweepStep(keys, i, m);
      PersistStep(m, keys[..i], k);
      var st := current[k];
      assert st == m[k] && st.id == k;
      if st.needsPersist {
        current := current[k := st.(needsPersist := false)];
        issued := issued + [SaveRequest(st.id, st.room.content)];
      }
      if st.room.closed {
        current := current - {st.id};
      } else {
        kept := kept + [k];
      }
      i := i + 1;
    }
    assert keys[..i] == keys;
    SweepComplete(m, map[], keys);
  }

  /** The loop of the mutex sweep over `m` in the iteration order `keys`. */
  method MutexLoop(keys: seq<string>, m: map<string, RoomState>, mutexes: map<string, Mutex>)
    returns (current: map<string, RoomState>, locks: map<string, Mutex>, kept: seq<string>)
    requires NoDuplicates(keys)
    requires forall k :: k in m <==> k in keys
    ensures current == OpenRooms(m)
    ensures locks == SweptMutexes(mutexes, m)
    ensures kept == OpenOrder(keys, m)
  {
    current, locks, kept := m, mutexes, [];
    var i := 0;
    while i < |keys|
      invariant 0 <= i <= |keys|
      invariant current == OpenSoFar(m, keys[..i])
      invariant locks == SweptSoFar(mutexes, m, keys[..i])
      invariant kept == OpenOrder(keys[..i], m)
    {
      var k := keys[i];
      SweepStep(keys, i, m);
      MutexStep(m, mutexes, keys[..i], k);
      if current[k].room.closed {
        current := current - {k};
        locks := locks - {k};
      } else {
        kept := kept + [k];
      }
      i := i + 1;
    }
    assert keys[..i] == keys;
    SweepComplete(m, mutexes, keys);
  }

  // ---------------------------------------------------------------------------------------
  // The registry

  /**
   * The invariant of the registry: every entry is filed under its own id, every
   * registered room object predates `next`, and `order` lists every id once.
   */
  ghost predicate Coherent(rooms: map<string, RoomState>, order: seq<string>, next: nat) {
    (forall k :: k in rooms ==> rooms[k].id == k && rooms[k].room.instance < next) &&
    NoDuplicates(order) &&
    (forall k :: k in order <==> k in rooms)
  }

  /** Registering a new room object under `id` keeps the registry coherent. */
  lemma RegisterKeepsCoherent(rooms: map<string, RoomState>, order: seq<string>, next: nat, id: string, room: Room)
    requires Coherent(rooms, order, next) && room.instance == next
    ensures Coherent(rooms[id := RoomState(room, id, false)], if id in rooms then order else order + [id], next + 1)
  {
    if id !in rooms {
      assert id !in order;
      var order' := order + [id];
      forall i, j | 0 <= i < j < |order'| ensures order'[i] != order'[j] {
        if j == |order| { assert order'[i] == order[i]; } else { assert order'[i] == order[i] && order'[j] == order[j]; }
      }
    }
  }

  class RoomRegistry {
    /** `rooms`. */
    var rooms: map<string, RoomState>
    /** The iteration order of `rooms` (JavaScript maps iterate in insertion order). */
    var order: seq<string>
    /** `roomMutexes`. */
    var mutexes: map<string, Mutex>
    /** The `saveSnapshot` calls issued so far, oldest first. */
    var saves: seq<SaveRequest>
    /** The identity the next room object gets. */
    var nextInstance: nat

    /** Every entry is filed under its own id, every registered room object predates `nextInstance`. */
    ghost predicate Valid()
      reads this
    {
      Coherent(rooms, order, nextInstance)
    }

    /** The registry at server start: both maps empty. */
    constructor ()
      ensures Valid()
      ensures rooms == map[] && mutexes == map[] && order == [] && saves == []
    {
      rooms, mutexes, order, saves, nextInstance := map[], map[], [], [], 0;
    }

    /** The room object `instance` is the one registered under `roomId`. */
    predicate Registered(roomId: string, instance: nat)
      reads this
    {
      roomId in rooms && rooms[roomId].room.instance == instance
    }

    /**
     * `makeOrLoadRoom(roomId)`. `fs` is the storage the initial snapshot is read from and
     * `builds` says whether `new TLSocketRoom` returns normally for it; when it throws, the
     * `.catch` rethrows and the rejected promise is what `roomMutexes` keeps, so every later
     * call for this id fails as well.
     */
    method MakeOrLoadRoom(roomId: string, fs: FileSystem, storageRoot: string, builds: bool)
      returns (r: Result<Room, string>)
      requires Valid()
      modifies this
      ensures Valid() && saves == old(saves)
      ensures old(roomId in mutexes && mutexes[roomId] == Rejected) ==>
        r.Err? && rooms == old(rooms) && order == old(order) && mutexes == old(mutexes) &&
        nextInstance == old(nextInstance)
      ensures old(!(roomId in mutexes && mutexes[roomId] == Rejected) && roomId in rooms && !rooms[roomId].room.closed) ==>
        r == Ok(old(rooms[roomId].room)) && rooms == old(rooms) && order == old(order) &&
        mutexes == old(mutexes)[roomId := Resolved] && nextInstance == old(nextInstance)
      ensures old(!(roomId in mutexes && mutexes[roomId] == Rejected) && !(roomId in rooms && !rooms[roomId].room.closed)) ==>
        if builds then
          r == Ok(Room(old(nextInstance), InitialContent(fs, storageRoot, roomId), 0, false)) &&
          rooms == old(rooms)[roomId := RoomState(r.value, roomId, false)] &&
          order == (if roomId in old(rooms) then old(order) else old(order) + [roomId]) &&
          mutexes == old(mutexes)[roomId := Resolved] && nextInstance == old(nextInstance) + 1
        else
          r.Err? && rooms == old(rooms) && order == old(order) &&
          mutexes == old(mutexes)[roomId := Rejected] && nextInstance == old(nextInstance)
    {
      var mutex := if roomId in mutexes then mutexes[roomId] else Resolved;
      if mutex == Rejected {
        // `.then` skips its callback on a rejected promise and `.catch` rethrows
        mutexes := mutexes[roomId := Rejected];
        return Err("Error in room mutex");
      }
      if roomId in rooms && !rooms[roomId].room.closed {
        mutexes := mutexes[roomId := Resolved];
        return Ok(rooms[roomId].room);
      }
      var initial := InitialContent(fs, storageRoot, roomId);
      if !builds {
        mutexes := mutexes[roomId := Rejected];
        return Err("Error in room mutex");
      }
      var room := Room(nextInstance, initial, 0, false);
      RegisterKeepsCoherent(rooms, order, nextInstance, roomId, room);
      var order' := if roomId in rooms then order else order + [roomId];
      rooms, order, mutexes, nextInstance := rooms[roomId := RoomState(room, roomId, false)], order',
        mutexes[roomId := Resolved], nextInstance + 1;
      r := Ok(room);
    }

    /**
     * The room object `instance` accepted a change (its content is now `content`) and
     * called `onDataChange`, which sets `needsPersist` on its own room state. A room
     * object no longer in the registry changes nothing the registry holds.
     */
    method DataChanged(roomId: string, instance: nat, content: Snapshot)
      requires Valid()
      modifies this
      ensures Valid()
      ensures old(Registered(roomId, instance)) ==>
        rooms == old(rooms)[roomId := old(rooms[roomId]).(room := old(rooms[roomId].room).(content := content), needsPersist := true)]
      ensures !old(Registered(roomId, instance)) ==> rooms == old(rooms)
      ensures order == old(order) && mutexes == old(mutexes) && saves == old(saves) && nextInstance == old(nextInstance)
    {
      if Registered(roomId, instance) {
        var st := rooms[roomId];
        rooms := rooms[roomId := st.(room := st.room.(content := content), needsPersist := true)];
      }
    }

    /**
     * A client left room object `instance`: `onSessionRemoved` closes the room exactly when
     * no session remains.
     */
    method SessionRemoved(roomId: string, instance: nat, numSessionsRemaining: nat)
      requires Valid()
      modifies this
      ensures Valid()
      ensures old(Registered(roomId, instance)) ==>
        rooms == old(rooms)[roomId := old(rooms[roomId]).(room := old(rooms[roomId].room).(
          sessions := numSessionsRemaining,
          closed := old(rooms[roomId].room.closed) || numSessionsRemaining == 0))]
      ensures !old(Registered(roomId, instance)) ==> rooms == old(rooms)
      ensures order == old(order) && mutexes == old(mutexes) && saves == old(saves) && nextInstance == old(nextInstance)
    {
      if Registered(roomId, instance) {
        var st := rooms[roomId];
        var closed := st.room.closed || numSessionsRemaining == 0;
        rooms := rooms[roomId := st.(room := st.room.(sessions := numSessionsRemaining, closed := closed))];
      }
    }

    /**
     * The first sweep: for every room in iteration order, a room that needs persisting has
     * its flag cleared and one save issued with its current snapshot, and then a closed
     * room is deleted from `rooms`, while its mutex is left in `roomMutexes`.
     */
    method PersistSweep()
      requires Valid()
      modifies this
      ensures Valid()
      ensures rooms == PersistedRooms(old(rooms))
      ensures order == OpenOrder(old(order), old(rooms))
      ensures saves == old(saves) + DirtySaves(old(order), old(rooms))
      ensures mutexes == old(mutexes) && nextInstance == old(nextInstance)
    {
      var current, kept, issued := PersistLoop(order, rooms);
      OpenOrderNoDuplicates(order, rooms);
      OpenOrderMembers(order, rooms);
      rooms, order, saves := current, kept, saves + issued;
    }

    /**
     * The second sweep: every closed room is deleted from both `rooms` and `roomMutexes`;
     * open rooms and their mutexes are untouched.
     */
    method MutexSweep()
      requires Valid()
      modifies this
      ensures Valid()
      ensures rooms == OpenRooms(old(rooms))
      ensures mutexes == SweptMutexes(old(mutexes), old(rooms))
      ensures order == OpenOrder(old(order), old(rooms))
      ensures saves == old(saves) && nextInstance == old(nextInstance)
    {
      var current, locks, kept := MutexLoop(order, rooms, mutexes);
      OpenOrderNoDuplicates(order, rooms);
      OpenOrderMembers(order, rooms);
      rooms, mutexes, order := current, locks, kept;
    }
  }
}
