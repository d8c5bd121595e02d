/** On plain prefix-free keys a path-based store answers every run of requests exactly as the map does. */
module Refinement {
  import opened Bytes
  import opened Keys
  import opened Order
  import opened FileModel

  ghost predicate Uses(keys: set<Str>, r: Request) {
    r.List? || r.key in keys
  }

  /** Every file is a stored key at its own path. */
  ghost predicate FilesAgree(files: map<Path, seq<byte>>, m: Blobs) {
    && (forall k :: k in m ==> PathOf(k) in files && files[PathOf(k)] == m[k])
    && (forall p :: p in files ==> p != [] && Join(p) in m && PathOf(Join(p)) == p)
  }

  ghost predicate LeadsToKey(keys: set<Str>, d: Path) {
    d == [] || exists k :: k in keys && ProperPrefix(d, PathOf(k))
  }

  /** The files are the stored keys; directories lead to keys, but need not be in use. */
  ghost predicate Refines(keys: set<Str>, t: Tree, m: Blobs) {
    && m.Keys <= keys
    && FilesAgree(t.files, m)
    && (forall d :: d in t.dirs ==> LeadsToKey(keys, d))
  }

  lemma PlainPath(k: Str)
    requires PlainKey(k)
    ensures PathOf(k) != [] && ProperPath(PathOf(k)) && Join(PathOf(k)) == k
    ensures !EndsInDot(k) && Resolve(k) == Under(PathOf(k))
  {
    PathStaysBelowRoot(k);
    RebuiltExactlyWhenDotless(k);
  }

  lemma PlainFacts(keys: set<Str>)
    requires PlainSet(keys)
    ensures forall k :: k in keys ==>
              PathOf(k) != [] && Join(PathOf(k)) == k && !EndsInDot(k) && Resolve(k) == Under(PathOf(k)) && ValidKey(k)
    ensures forall a, b :: a in keys && b in keys ==> !(PathOf(a) < PathOf(b))
  {
    forall k | k in keys
      ensures PathOf(k) != [] && Join(PathOf(k)) == k && !EndsInDot(k) && Resolve(k) == Under(PathOf(k))
    {
      PlainPath(k);
    }
    forall a, b | a in keys && b in keys
      ensures !(PathOf(a) < PathOf(b))
    {
      assert !ProperPrefix(PathOf(a), PathOf(b));
    }
  }

  /** No plain key is hidden behind a file, and none is a directory, however many directories were left behind. */
  lemma KeysAreReachable(keys: set<Str>, t: Tree, m: Blobs, k: Str)
    requires PlainSet(keys) && Refines(keys, t, m) && k in keys
    ensures !BlockedByFile(t, PathOf(k)) && PathOf(k) !in t.dirs
    ensures PathOf(k) in t.files <==> k in m
    ensures Stat(t, k) == if k in m then File(m[k]) else Missing
  {
    hide PlainSet, PathOf, Join, EndsInDot, Resolve, ValidKey;
    PlainFacts(keys);
  }

  lemma ListingsAgree(keys: set<Str>, t: Tree, m: Blobs, prefix: Str)
    requires PlainSet(keys) && Refines(keys, t, m)
    ensures ListedKeys(t.files.Keys, prefix) == KeysUnder(m, prefix)
  {
    hide PlainSet, PathOf, Join, EndsInDot, Resolve, ValidKey;
    PlainFacts(keys);
    forall k
      ensures k in ListedKeys(t.files.Keys, prefix) <==> k in KeysUnder(m, prefix)
    {
      if k in KeysUnder(m, prefix) {
        assert PathOf(k) in t.files && ListsPath(PathOf(k), prefix);
      }
    }
  }

  lemma FilesAfterPut(files: map<Path, seq<byte>>, m: Blobs, k: Str, data: seq<byte>)
    requires FilesAgree(files, m) && PathOf(k) != [] && Join(PathOf(k)) == k
    requires forall j :: j in m ==> PathOf(j) != [] && Join(PathOf(j)) == j
    ensures FilesAgree(files[PathOf(k) := data], m[k := data])
  {
    hide PathOf, Join;
  }

  lemma FilesAfterDelete(files: map<Path, seq<byte>>, m: Blobs, k: Str)
    requires FilesAgree(files, m) && k in m
    requires forall j :: j in m ==> PathOf(j) != [] && Join(PathOf(j)) == j
    ensures FilesAgree(files - {PathOf(k)}, m - {k})
  {
    hide PathOf, Join;
  }

  lemma PutRefines(keys: set<Str>, t: Tree, m: Blobs, k: Str, data: seq<byte>)
    requires PlainSet(keys) && Refines(keys, t, m) && k in keys
    ensures var (t', o) := PutTree(t, None, k, data);
            o == Stored && Refines(keys, t', m[k := data])
  {
    hide PlainSet, PathOf, Join, EndsInDot, Resolve, ValidKey, BlockedByFile, Stat, FilesAgree;
    PlainFacts(keys);
    KeysAreReachable(keys, t, m, k);
    FilesAfterPut(t.files, m, k, data);
    var t' := PutTree(t, None, k, data).0;
    forall d | d in t'.dirs
      ensures LeadsToKey(keys, d)
    {
      if d in Above(PathOf(k)) {
        assert ProperPrefix(d, PathOf(k));
      }
    }
  }

  lemma DeleteRefines(keys: set<Str>, t: Tree, m: Blobs, k: Str)
    requires PlainSet(keys) && Refines(keys, t, m) && k in m
    ensures var (t', o) := DeleteTree(t, k);
            o == Removed && Refines(keys, t', m - {k})
  {
    hide PlainSet, PathOf, Join, EndsInDot, Resolve, ValidKey, BlockedByFile, Stat, FilesAgree, LeadsToKey;
    PlainFacts(keys);
    KeysAreReachable(keys, t, m, k);
    FilesAfterDelete(t.files, m, k);
  }

  /** One request: the same answer, and the correspondence is kept. */
  lemma StepRefines(keys: set<Str>, t: Tree, m: Blobs, r: Request)
    requires PlainSet(keys) && Refines(keys, t, m) && Uses(keys, r)
    ensures TreeStep(t, r).1 == MapStep(m, r).1
    ensures Refines(keys, TreeStep(t, r).0, MapStep(m, r).0)
  {
    hide PlainSet, PathOf, Join, EndsInDot, Resolve, ValidKey, Refines, BlockedByFile, Stat, PutTree, Listing;
    PlainFacts(keys);
    match r
    case List(prefix) =>
      ListingsAgree(keys, t, m, prefix);
    case Put(k, data) =>
      PutRefines(keys, t, m, k, data);
    case Get(k) =>
      KeysAreReachable(keys, t, m, k);
    case Delete(k) =>
      KeysAreReachable(keys, t, m, k);
      if k in m {
        DeleteRefines(keys, t, m, k);
      }
    case Exists(k) =>
      KeysAreReachable(keys, t, m, k);
  }

  lemma {:induction false} RunsFromRelatedStates(keys: set<Str>, t: Tree, m: Blobs, rs: seq<Request>)
    requires PlainSet(keys) && Refines(keys, t, m)
    requires forall i :: 0 <= i < |rs| ==> Uses(keys, rs[i])
    ensures RunTree(t, rs) == RunMap(m, rs)
    decreases |rs|
  {
    hide TreeStep, MapStep, Refines, PlainSet;
    if rs != [] {
      StepRefines(keys, t, m, rs[0]);
      RunsFromRelatedStates(keys, TreeStep(t, rs[0]).0, MapStep(m, rs[0]).0, rs[1..]);
    }
  }

  /** Every run over a plain prefix-free key set from an empty root gives the answers of the map. */
  lemma RunRefinement(keys: set<Str>, rs: seq<Request>)
    requires PlainSet(keys)
    requires forall i :: 0 <= i < |rs| ==> Uses(keys, rs[i])
    ensures RunTree(EMPTY_ROOT, rs) == RunMap(map[], rs)
  {
    hide PlainSet, RunTree, RunMap, Uses;
    RunsFromRelatedStates(keys, EMPTY_ROOT, map[], rs);
  }

  // ------------------------------------------------------------------------------------------
  // The keys must be plain and prefix-free: otherwise one or two requests tell the store from the map.

  ghost predicate AllUse(keys: set<Str>, rs: seq<Request>) {
    forall i :: 0 <= i < |rs| ==> Uses(keys, rs[i])
  }

  ghost predicate Agree(rs: seq<Request>) {
    RunTree(EMPTY_ROOT, rs) == RunMap(map[], rs)
  }

  lemma TwoRequests(r: Request, q: Request)
    ensures RunTree(EMPTY_ROOT, [r, q]) == [TreeStep(EMPTY_ROOT, r).1, TreeStep(TreeStep(EMPTY_ROOT, r).0, q).1]
    ensures RunMap(map[], [r, q]) == [MapStep(map[], r).1, MapStep(MapStep(map[], r).0, q).1]
  {
    hide TreeStep, MapStep;
    var t, m := TreeStep(EMPTY_ROOT, r).0, MapStep(map[], r).0;
    assert [r, q][1..] == [q] && [q][1..] == [];
    assert RunTree(t, [q]) == [TreeStep(t, q).1] + RunTree(TreeStep(t, q).0, []);
    assert RunMap(m, [q]) == [MapStep(m, q).1] + RunMap(MapStep(m, q).0, []);
  }

  /** A valid key that is not plain is refused, or is listed under another name. */
  lemma OddKeyShows(k: Str)
    requires ValidKey(k) && !PlainKey(k)
    ensures !Agree([Put(k, []), List([])])
  {
    hide ValidKey, PathOf, Join, EndsInDot, Listing;
    var put, list := Put(k, []), List([]);
    TwoRequests(put, list);
    var (t, o) := TreeStep(EMPTY_ROOT, put);
    if o == Stored {
      RebuiltExactlyWhenDotless(k);
      var m := MapStep(map[], put).0;
      assert t.files.Keys == {PathOf(k)} && k in KeysUnder(m, []);
      assert k !in ListedKeys(t.files.Keys, []);
      assert Listing(ListedKeys(t.files.Keys, [])) != Listing(KeysUnder(m, []));
    }
  }

  /** A key below another makes the other a directory. */
  lemma NestedKeysShow(a: Str, b: Str)
    requires PlainKey(a) && PlainKey(b) && ProperPrefix(PathOf(a), PathOf(b))
    ensures !Agree([Put(b, []), Put(a, [])])
  {
    hide PathOf, ValidKey, Join, NoDotSegment;
    PlainPath(a);
    PlainPath(b);
    TwoRequests(Put(b, []), Put(a, []));
    var t := TreeStep(EMPTY_ROOT, Put(b, [])).0;
    assert PathOf(a) in Above(PathOf(b)) && PathOf(a) in t.dirs;
  }

  /** For valid keys: a store of files answers every run as the map does if and only if the keys are plain and prefix-free. */
  lemma AgreesExactlyOnPlainSets(keys: set<Str>)
    requires forall k :: k in keys ==> ValidKey(k)
    ensures (forall rs :: AllUse(keys, rs) ==> Agree(rs)) <==> PlainSet(keys)
  {
    hide ValidKey, PlainKey, RunTree, RunMap, PathOf;
    if PlainSet(keys) {
      forall rs | AllUse(keys, rs)
        ensures Agree(rs)
      {
        RunRefinement(keys, rs);
      }
    } else if k :| k in keys && !PlainKey(k) {
      OddKeyShows(k);
      assert AllUse(keys, [Put(k, []), List([])]);
    } else {
      var a, b :| a in keys && b in keys && ProperPrefix(PathOf(a), PathOf(b));
      NestedKeysShow(a, b);
      assert AllUse(keys, [Put(b, []), Put(a, [])]);
    }
  }

  // ------------------------------------------------------------------------------------------
  // What a single tree does.

  lemma StepKeepsWellFormed(t: Tree, r: Request)
    requires WellFormed(t)
    requires r.Put? ==> ValidKey(r.key)
    ensures WellFormed(TreeStep(t, r).0)
  {
    hide ValidKey, PathOf, Listing, ListedKeys, EndsInDot, Resolve;
    if r.Put? {
      PathStaysBelowRoot(r.key);
      var p := PathOf(r.key);
      forall d | d in Above(p)
        ensures ProperPath(d) && Above(d) <= Above(p)
      {
      }
    }
  }

  /**
    In a well-formed tree a put of a plain key succeeds exactly when its payload is within the limit, no file lies
    on the way to it and no directory is in its place; when it fails, no file changes.
  */
  lemma PutSucceedsExactlyWhenFree(t: Tree, limit: Option<nat>, k: Str, data: seq<byte>)
    requires WellFormed(t) && PlainKey(k)
    ensures
      var (t', o) := PutTree(t, limit, k, data);
      && (o == Stored <==> (limit.Some? ==> |data| <= limit.value) && !BlockedByFile(t, PathOf(k)) && PathOf(k) !in t.dirs)
      && (o == Stored ==> GetTree(t', k) == Data(data) && ExistsTree(t', k) == Present(true))
      && (o != Stored ==> t'.files == t.files)
  {
    PlainPath(k);
    hide ValidKey, NoDotSegment;
    if PutTree(t, limit, k, data).1 == Stored {
      assert !BlockedByFile(PutTree(t, limit, k, data).0, PathOf(k)) by {
        assert PathOf(k) !in Above(PathOf(k));
      }
    }
  }

  /** The life of one object: stored, it is there; deleted, it is gone, and every other file is as before the put. */
  lemma StoredThenDeleted(t: Tree, limit: Option<nat>, k: Str, data: seq<byte>)
    requires WellFormed(t) && PlainKey(k) && PutTree(t, limit, k, data).1 == Stored
    ensures
      var stored := PutTree(t, limit, k, data).0;
      var (gone, removed) := DeleteTree(stored, k);
      && GetTree(stored, k) == Data(data) && ExistsTree(stored, k) == Present(true)
      && removed == Removed && gone.files == t.files - {PathOf(k)}
      && GetTree(gone, k) == NotFound && ExistsTree(gone, k) == Present(false)
      && DeleteTree(gone, k) == (gone, NotFound)
  {
    hide ValidKey, PathOf, ProperPath;
    PlainPath(k);
    PutSucceedsExactlyWhenFree(t, limit, k, data);
    var stored := PutTree(t, limit, k, data).0;
    var gone := DeleteTree(stored, k).0;
    assert gone.files == t.files - {PathOf(k)};
    assert PathOf(k) !in Above(PathOf(k));
  }

  /** Deleting never removes directories: once `below` was stored under it, `k` stays unusable as a key. */
  lemma DirectoriesOutliveTheirFiles(t: Tree, k: Str, below: Str, data: seq<byte>)
    requires WellFormed(t)
    requires PlainKey(k) && PlainKey(below) && ProperPrefix(PathOf(k), PathOf(below))
    requires PutTree(t, None, below, data).1 == Stored
    ensures
      var stored := PutTree(t, None, below, data).0;
      var (emptied, removed) := DeleteTree(stored, below);
      && removed == Removed
      && GetTree(emptied, below) == NotFound
      && PutTree(emptied, None, k, data).1 == IoError
      && ExistsTree(emptied, k) == Present(true)
  {
    hide PathOf, ProperPath, ValidKey;
    PlainPath(k);
    PlainPath(below);
    PutSucceedsExactlyWhenFree(t, None, below, data);
    var stored := PutTree(t, None, below, data).0;
    StepKeepsWellFormed(t, Put(below, data));
    var emptied := DeleteTree(stored, below).0;
    assert PathOf(k) in Above(PathOf(below));
    assert Above(PathOf(k)) <= Above(PathOf(below));
  }
}
