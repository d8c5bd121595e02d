/** The stores at work on a list of requests, one after another: over plain keys their answers are the same. */
module Runs {
  import opened Bytes
  import opened Keys
  import opened Order
  import opened FileModel
  import opened Refinement
  import opened Stores

  /** The answers given so far, followed by those that a tree gives to the requests left, are all the answers. */
  ghost predicate FilesOnTrack(t: Tree, left: seq<Request>, outcomes: seq<Outcome>, all: seq<Outcome>) {
    outcomes + RunTree(t, left) == all
  }

  ghost predicate MapOnTrack(m: Blobs, left: seq<Request>, outcomes: seq<Outcome>, all: seq<Outcome>) {
    outcomes + RunMap(m, left) == all
  }

  lemma OneMoreAnswer(before: seq<Outcome>, o: Outcome, after: seq<Outcome>)
    ensures before + ([o] + after) == before + [o] + after
  {
  }

  lemma TreeAnswersFirst(t: Tree, left: seq<Request>)
    requires left != []
    ensures RunTree(t, left) == [TreeStep(t, left[0]).1] + RunTree(TreeStep(t, left[0]).0, left[1..])
  {
    hide TreeStep;
  }

  lemma MapAnswersFirst(m: Blobs, left: seq<Request>)
    requires left != []
    ensures RunMap(m, left) == [MapStep(m, left[0]).1] + RunMap(MapStep(m, left[0]).0, left[1..])
  {
    hide MapStep;
  }

  lemma FilesAdvance(t: Tree, left: seq<Request>, outcomes: seq<Outcome>, all: seq<Outcome>)
    requires left != [] && FilesOnTrack(t, left, outcomes, all)
    ensures FilesOnTrack(TreeStep(t, left[0]).0, left[1..], outcomes + [TreeStep(t, left[0]).1], all)
  {
    hide TreeStep, RunTree;
    var (t', o) := TreeStep(t, left[0]);
    TreeAnswersFirst(t, left);
    OneMoreAnswer(outcomes, o, RunTree(t', left[1..]));
  }

  lemma MapAdvances(m: Blobs, left: seq<Request>, outcomes: seq<Outcome>, all: seq<Outcome>)
    requires left != [] && MapOnTrack(m, left, outcomes, all)
    ensures MapOnTrack(MapStep(m, left[0]).0, left[1..], outcomes + [MapStep(m, left[0]).1], all)
  {
    hide MapStep, RunMap;
    var (m', o) := MapStep(m, left[0]);
    MapAnswersFirst(m, left);
    OneMoreAnswer(outcomes, o, RunMap(m', left[1..]));
  }

  /** One request to a store of files. */
  method AskFiles(store: LocalStore, r: Request) returns (o: Outcome)
    requires store.fs.Valid() && store.limit == None
    requires r.Put? ==> ValidKey(r.key)
    modifies store.fs
    ensures store.fs.faults == old(store.fs.faults) + if o.Failed? then 1 else 0
    ensures store.fs.Valid() && (!o.Failed? ==> (store.fs.View(), o) == TreeStep(old(store.fs.View()), r))
  {
    hide PutTree, GetTree, DeleteTree, Stat, PathOf, Listing, ListedKeys, FileSystem.Valid, FileSystem.View;
    match r
    case Put(key, data) => o := store.Put(key, data);
    case Get(key) => o := store.Get(key);
    case Delete(key) => o := store.Delete(key);
    case Exists(key) => o := store.Exists(key);
    case List(prefix) =>
      var keys := store.List(prefix);
      o := Listed(keys);
  }

  /** Every stored payload has a length that fits the ring's offsets. */
  ghost predicate Small(fs: FileSystem)
    reads fs`files, fs.files.Values
  {
    forall p :: p in fs.files ==> |fs.files[p].content| < U64_SIZE
  }

  /**
    One request to a store that works through the ring. Only a directory that reports no length may read differently.
    Files are only added as new ones, so the next request can follow.
  */
  method AskRing(store: IoUringStore, r: Request) returns (o: Outcome)
    requires store.fs.Valid() && store.limit == None && Small(store.fs)
    requires r.Put? ==> ValidKey(r.key) && |r.data| < U64_SIZE
    modifies store.fs, store.fs.files.Values
    ensures store.fs.faults == old(store.fs.faults) + if o.Failed? then 1 else 0
    ensures store.fs.Valid() && Small(store.fs)
    ensures fresh(store.fs.files.Values - old(store.fs.files.Values))
    ensures !o.Failed? ==>
              || (store.fs.View(), o) == TreeStep(old(store.fs.View()), r)
              || (store.fs.View() == old(store.fs.View()) && r.Get? && PathOf(r.key) in old(store.fs.dirs))
  {
    hide PutTree, GetTree, DeleteTree, Stat, PathOf, Listing, ListedKeys, FileSystem.Valid, Strays;
    ghost var files := store.fs.files;
    match r
    case Put(key, data) =>
      ghost var ring;
      o, ring := store.Put(key, data);
    case Get(key) =>
      o := store.Get(key);
      forall p | p in store.fs.files
        ensures |store.fs.files[p].content| < U64_SIZE
      {
        assert store.fs.View().files[p] == old(store.fs.View()).files[p];
      }
    case Delete(key) => o := store.Delete(key);
    case Exists(key) => o := store.Exists(key);
    case List(prefix) =>
      var keys := store.List(prefix);
      o := Listed(keys);
  }

  /** Over plain prefix-free keys the ring gives the answer of the map, whatever its schedule. */
  method AskRingAsMap(store: IoUringStore, ghost keys: set<Str>, ghost m: Blobs, r: Request) returns (o: Outcome)
    requires store.fs.Valid() && store.limit == None && Small(store.fs)
    requires PlainSet(keys) && Uses(keys, r) && Refines(keys, store.fs.View(), m)
    requires r.Put? ==> |r.data| < U64_SIZE
    modifies store.fs, store.fs.files.Values
    ensures store.fs.Valid() && store.fs.faults == old(store.fs.faults) + if o.Failed? then 1 else 0
    ensures Small(store.fs) && fresh(store.fs.files.Values - old(store.fs.files.Values))
    ensures !o.Failed? ==> o == MapStep(m, r).1 && Refines(keys, store.fs.View(), MapStep(m, r).0)
  {
    StepRefines(keys, store.fs.View(), m, r);
    KeysAreValid(keys, r);
    if !r.List? {
      KeysAreReachable(keys, store.fs.View(), m, r.key);
    }
    hide PlainSet, Refines, TreeStep, MapStep, Stat, PathOf, FileSystem.Valid, FileSystem.View, ValidKey, Small;
    o := AskRing(store, r);
  }

  /** The ring's store answers any list of requests as the map does, up to the first failure of the device or the kernel. */
  method AnswerFromRing(store: IoUringStore, ghost keys: set<Str>, rs: seq<Request>) returns (outcomes: seq<Outcome>)
    requires store.fs.Valid() && store.fs.View() == EMPTY_ROOT && store.limit == None
    requires PlainSet(keys) && AllUse(keys, rs)
    requires forall i :: 0 <= i < |rs| && rs[i].Put? ==> |rs[i].data| < U64_SIZE
    modifies store.fs, store.fs.files.Values
    ensures store.fs.faults == old(store.fs.faults) ==> outcomes == RunMap(map[], rs)
    ensures outcomes <= RunMap(map[], rs)
  {
    ghost var m: Blobs, all := map[], RunMap(map[], rs);
    StartsSmall(store.fs, keys);
    MapStarts(m, rs);
    hide MapStep, Refines, FileSystem.Valid, FileSystem.View, PlainSet, Small, RunMap, MapOnTrack;
    outcomes := [];
    for i := 0 to |rs|
      invariant store.fs.Valid() && Small(store.fs) && store.fs.faults == old(store.fs.faults)
      invariant fresh(store.fs.files.Values - old(store.fs.files.Values))
      invariant Refines(keys, store.fs.View(), m)
      invariant MapOnTrack(m, rs[i..], outcomes, all)
    {
      MapAdvances(m, rs[i..], outcomes, all);
      assert Uses(keys, rs[i]);
      var o := AskRingAsMap(store, keys, m, rs[i]);
      if o.Failed? {
        MapOnTheWay(m, rs[i..], outcomes, all);
        return;
      }
      m := MapStep(m, rs[i]).0;
      outcomes := outcomes + [o];
      assert rs[i..][1..] == rs[i + 1..];
    }
    MapOnTheWay(m, [], outcomes, all);
  }

  lemma MapStarts(m: Blobs, rs: seq<Request>)
    ensures MapOnTrack(m, rs[0..], [], RunMap(m, rs))
  {
    assert rs[0..] == rs;
  }

  lemma MapOnTheWay(m: Blobs, left: seq<Request>, outcomes: seq<Outcome>, all: seq<Outcome>)
    requires MapOnTrack(m, left, outcomes, all)
    ensures outcomes <= all && (left == [] ==> outcomes == all)
  {
  }

  lemma StartsSmall(fs: FileSystem, keys: set<Str>)
    requires fs.View() == EMPTY_ROOT
    ensures Small(fs) && Refines(keys, fs.View(), map[])
  {
    assert fs.files.Keys == fs.View().files.Keys;
  }

  /** One request to a store in memory. */
  method AskMemory(store: MemoryStore, r: Request) returns (o: Outcome)
    requires store.Valid()
    modifies store
    ensures store.Valid() && (store.Contents(), o) == MapStep(old(store.Contents()), r)
  {
    match r
    case Put(key, data) => o := store.Put(key, data);
    case Get(key) => o := store.Get(key);
    case Delete(key) => o := store.Delete(key);
    case Exists(key) => o := store.Exists(key);
    case List(prefix) =>
      var keys := store.List(prefix);
      o := Listed(keys);
  }

  /**
    The same requests, over plain prefix-free keys, to the three stores, each with an empty root or empty and without
    a size limit: the answers are the same, up to the first failure of the device or the kernel.
  */
  method ServeAll(local: LocalStore, ring: IoUringStore, memory: MemoryStore, ghost keys: set<Str>, rs: seq<Request>)
    returns (fromFiles: seq<Outcome>, fromRing: seq<Outcome>, fromMemory: seq<Outcome>)
    requires local.fs.Valid() && local.fs.View() == EMPTY_ROOT && local.limit == None
    requires ring.fs.Valid() && ring.fs.View() == EMPTY_ROOT && ring.limit == None && ring.fs != local.fs
    requires memory.Valid() && memory.Contents() == map[]
    requires PlainSet(keys) && AllUse(keys, rs)
    requires forall i :: 0 <= i < |rs| && rs[i].Put? ==> |rs[i].data| < U64_SIZE
    modifies local.fs, ring.fs, ring.fs.files.Values, memory
    ensures fromFiles <= fromMemory && fromRing <= fromMemory && fromMemory == RunMap(map[], rs)
    ensures local.fs.faults == old(local.fs.faults) ==> fromFiles == fromMemory
    ensures ring.fs.faults == old(ring.fs.faults) ==> fromRing == fromMemory
  {
    RunRefinement(keys, rs);
    forall i | 0 <= i < |rs|
      ensures rs[i].Put? ==> ValidKey(rs[i].key)
    {
      KeysAreValid(keys, rs[i]);
    }
    hide RunTree, RunMap, FileSystem.Valid, FileSystem.View, PlainSet, AllUse, ValidKey;
    fromFiles := AnswerFromFiles(local, rs);
    fromRing := AnswerFromRing(ring, keys, rs);
    fromMemory := AnswerFromMemory(memory, rs);
  }

  lemma KeysAreValid(keys: set<Str>, r: Request)
    requires PlainSet(keys) && Uses(keys, r)
    ensures r.Put? ==> ValidKey(r.key)
  {
  }

  /** Up to the first failure of the device, a store of files answers any list of requests as its tree does. */
  method AnswerFromFiles(store: LocalStore, rs: seq<Request>) returns (outcomes: seq<Outcome>)
    requires store.fs.Valid() && store.limit == None
    requires forall i :: 0 <= i < |rs| && rs[i].Put? ==> ValidKey(rs[i].key)
    modifies store.fs
    ensures store.fs.faults == old(store.fs.faults) ==> outcomes == RunTree(old(store.fs.View()), rs)
    ensures outcomes <= RunTree(old(store.fs.View()), rs)
  {
    ghost var all := RunTree(store.fs.View(), rs);
    hide TreeStep, FileSystem.Valid, FileSystem.View, ValidKey;
    outcomes := [];
    for i := 0 to |rs|
      invariant store.fs.Valid() && store.fs.faults == old(store.fs.faults)
      invariant FilesOnTrack(store.fs.View(), rs[i..], outcomes, all)
    {
      FilesAdvance(store.fs.View(), rs[i..], outcomes, all);
      var o := AskFiles(store, rs[i]);
      if o.Failed? {
        return;
      }
      outcomes := outcomes + [o];
      assert rs[i..][1..] == rs[i + 1..];
    }
  }

  /** A store in memory answers any list of requests as its map does. */
  method AnswerFromMemory(store: MemoryStore, rs: seq<Request>) returns (outcomes: seq<Outcome>)
    requires store.Valid()
    modifies store
    ensures store.Valid() && outcomes == RunMap(old(store.Contents()), rs)
  {
    ghost var all := RunMap(store.Contents(), rs);
    hide MapStep, MemoryStore.Valid, MemoryStore.Contents;
    outcomes := [];
    for i := 0 to |rs|
      invariant store.Valid() && MapOnTrack(store.Contents(), rs[i..], outcomes, all)
    {
      MapAdvances(store.Contents(), rs[i..], outcomes, all);
      var o := AskMemory(store, rs[i]);
      outcomes := outcomes + [o];
      assert rs[i..][1..] == rs[i + 1..];
    }
  }

  /**
    One object of a store of files from put to delete. Stored exactly when there is room for it, it reads back byte
    for byte and exists; once deleted it does not exist, and reading or deleting it reports NotFound.
  */
  method Lifecycle(store: LocalStore, key: Str, data: seq<byte>)
    returns (put: Outcome, got: Outcome, there: Outcome, removed: Outcome, after: Outcome, still: Outcome, again: Outcome)
    requires store.fs.Valid() && PlainKey(key)
    modifies store.fs
    ensures store.fs.Valid()
    ensures !put.Failed? ==>
              (put == Stored <==> && (store.limit.Some? ==> |data| <= store.limit.value)
                                  && !BlockedByFile(old(store.fs.View()), PathOf(key)) && PathOf(key) !in old(store.fs.dirs))
    ensures put == Stored && store.fs.faults == old(store.fs.faults) ==>
              && got == Data(data) && there == Present(true) && removed == Removed
              && after == NotFound && still == Present(false) && again == NotFound
              && store.fs.View().files == old(store.fs.View()).files - {PathOf(key)}
  {
    ghost var before := store.fs.View();
    store.fs.ValidIsWellFormed();
    PutSucceedsExactlyWhenFree(before, store.limit, key, data);
    if PutTree(before, store.limit, key, data).1 == Stored {
      StoredThenDeleted(before, store.limit, key, data);
    }
    hide PathOf, ValidKey, PutTree, GetTree, DeleteTree, ExistsTree, WellFormed, FileSystem.Valid, FileSystem.View,
         BlockedByFile, Strays;
    got, there, removed, after, still, again := Failed, Failed, Failed, Failed, Failed, Failed;
    put := store.Put(key, data);
    if put == Stored {
      got := store.Get(key);
      there := store.Exists(key);
      removed, after, still, again := Retire(store, key);
    }
  }

  /** Deletes an object, then looks for it in every way. */
  method Retire(store: LocalStore, key: Str) returns (removed: Outcome, after: Outcome, still: Outcome, again: Outcome)
    requires store.fs.Valid()
    modifies store.fs
    ensures store.fs.Valid() && store.fs.faults >= old(store.fs.faults)
    ensures store.fs.faults == old(store.fs.faults) ==>
              var (gone, r) := DeleteTree(old(store.fs.View()), key);
              && removed == r && after == GetTree(gone, key) && still == ExistsTree(gone, key)
              && (store.fs.View(), again) == DeleteTree(gone, key)
  {
    hide PathOf, GetTree, DeleteTree, ExistsTree, FileSystem.Valid, FileSystem.View;
    removed := store.Delete(key);
    after := store.Get(key);
    still := store.Exists(key);
    again := store.Delete(key);
  }
}
