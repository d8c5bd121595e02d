/**
  What every answer means: each operation of the file model and of the map, described by the files, the
  directories and the earlier requests alone, without the functions that compute the answers.
*/
module Answers {
  import opened Bytes
  import opened Keys
  import opened Order
  import opened FileModel

  // ------------------------------------------------------------------------------------------
  // A directory tree.

  /** No file lies on the way to a path. */
  lemma NotBlocked(t: Tree, p: Path)
    ensures BlockedByFile(t, p) <==> exists d :: d in t.files && d < p
  {
    if d :| d in t.files && d < p {
      assert d in Above(p);
    }
  }

  lemma StatMeans(t: Tree, key: Str)
    requires WellFormed(t)
    ensures
      var p := PathOf(key);
      var dotted := key == [46] || (|key| >= 2 && key[|key| - 2] == 47 && key[|key| - 1] == 46);
      && (Stat(t, key).File? <==> p in t.files && !dotted)
      && (Stat(t, key).File? ==> Stat(t, key).content == t.files[p])
      && (Stat(t, key).Dir? <==> p in t.dirs)
      && (Stat(t, key).Missing? <==> p !in t.files && p !in t.dirs && forall d :: d in t.files ==> !(d < p))
  {
    hide PathOf, EndsInDot, ProperPath;
    EndsInDotMeans(key);
    NotBlocked(t, PathOf(key));
    if p :| p in t.files && p < PathOf(key) {
      assert PathOf(key) in t.files || PathOf(key) in t.dirs ==> p in Above(PathOf(key));
    }
  }

  /**
    A get returns a payload exactly when the path is a file, and then that file's; NotFound exactly when nothing is
    there and no file lies above; an error in all other cases: a directory, a file above, a file asked for as a directory.
  */
  lemma GetMeans(t: Tree, key: Str)
    requires WellFormed(t)
    ensures
      var p := PathOf(key);
      var refused := exists i :: 0 <= i < |key| - 1 && key[i] == 46 && key[i + 1] == 46;
      var dotted := key == [46] || (|key| >= 2 && key[|key| - 2] == 47 && key[|key| - 1] == 46);
      GetTree(t, key) ==
        if refused then InvalidKey
        else if p in t.files && !dotted then Data(t.files[p])
        else if p !in t.files && p !in t.dirs && forall d :: d in t.files ==> !(d < p) then NotFound
        else IoError
  {
    hide PathOf, Stat, WellFormed;
    ResolveMeans(key);
    StatMeans(t, key);
  }

  /** Something exists exactly when the path is a file or a directory; a file above is an error. */
  lemma ExistsMeans(t: Tree, key: Str)
    requires WellFormed(t)
    ensures
      var p := PathOf(key);
      var refused := exists i :: 0 <= i < |key| - 1 && key[i] == 46 && key[i + 1] == 46;
      var dotted := key == [46] || (|key| >= 2 && key[|key| - 2] == 47 && key[|key| - 1] == 46);
      ExistsTree(t, key) ==
        if refused then InvalidKey
        else if (p in t.files && !dotted) || p in t.dirs then Present(true)
        else if p !in t.files && forall d :: d in t.files ==> !(d < p) then Present(false)
        else IoError
  {
    hide PathOf, Stat, WellFormed;
    ResolveMeans(key);
    StatMeans(t, key);
  }

  /** A delete takes away exactly the file at the path, or changes nothing and says why; directories stay. */
  lemma DeleteMeans(t: Tree, key: Str)
    requires WellFormed(t)
    ensures
      var p := PathOf(key);
      var refused := exists i :: 0 <= i < |key| - 1 && key[i] == 46 && key[i + 1] == 46;
      var dotted := key == [46] || (|key| >= 2 && key[|key| - 2] == 47 && key[|key| - 1] == 46);
      var (t', o) := DeleteTree(t, key);
      && t'.dirs == t.dirs
      && t'.files == (if o == Removed then t.files - {p} else t.files)
      && o == (if refused then InvalidKey
               else if p in t.files && !dotted then Removed
               else if p !in t.files && p !in t.dirs && forall d :: d in t.files ==> !(d < p) then NotFound
               else IoError)
  {
    hide PathOf, Stat, WellFormed;
    ResolveMeans(key);
    StatMeans(t, key);
  }

  /**
    A put stores exactly the payload at exactly its path, or leaves every file alone and says why. The directories on
    the way are made unless the put is refused or a file is in the way.
  */
  lemma PutMeans(t: Tree, limit: Option<nat>, key: Str, data: seq<byte>)
    ensures
      var p := PathOf(key);
      var full := limit.Some? && |data| > limit.value;
      var refused := exists i :: 0 <= i < |key| - 1 && key[i] == 46 && key[i + 1] == 46;
      var dotted := key == [46] || (|key| >= 2 && key[|key| - 2] == 47 && key[|key| - 1] == 46);
      var blocked := exists d :: d in t.files && d < p;
      var (t', o) := PutTree(t, limit, key, data);
      && t'.files == (if o == Stored then t.files[p := data] else t.files)
      && (forall d :: d in t'.dirs <==> d in t.dirs || (!full && !refused && !blocked && d < p))
      && o == (if full then StorageFull
               else if refused then InvalidKey
               else if blocked || dotted || p in t.dirs then IoError
               else Stored)
  {
    hide PathOf, EndsInDot;
    ResolveMeans(key);
    EndsInDotMeans(key);
    NotBlocked(t, PathOf(key));
  }

  /** A listing holds exactly the valid keys with the prefix whose path is a file, each once, in increasing order of bytes. */
  lemma ListMeans(t: Tree, prefix: Str)
    requires WellFormed(t)
    ensures
      var out := Listing(ListedKeys(t.files.Keys, prefix));
      && (forall k :: k in out <==> ValidKey(k) && Split(k) in t.files && |prefix| <= |k| && k[..|prefix|] == prefix)
      && forall i, j :: 0 <= i < j < |out| ==>
           out[i] < out[j] || exists n :: 0 <= n < |out[i]| && n < |out[j]| && out[i][..n] == out[j][..n] && out[i][n] < out[j][n]
  {
    hide StrictlySorted;
    var out := Listing(ListedKeys(t.files.Keys, prefix));
    hide ValidKey, Listing, LexLt;
    forall k
      ensures k in out <==> ValidKey(k) && Split(k) in t.files && |prefix| <= |k| && k[..|prefix|] == prefix
    {
      ListedMeans(t, prefix, k);
    }
    SortedAscends(out);
  }

  lemma ListedMeans(t: Tree, prefix: Str, k: Str)
    requires WellFormed(t)
    ensures k in ListedKeys(t.files.Keys, prefix) <==>
            ValidKey(k) && Split(k) in t.files && |prefix| <= |k| && k[..|prefix|] == prefix
  {
    hide ValidKey, Join, Split;
    JoinSplit(k);
    if p :| p in t.files && ListsPath(p, prefix) && Join(p) == k {
      SplitJoin(p);
    }
    if ValidKey(k) && Split(k) in t.files && |prefix| <= |k| && k[..|prefix|] == prefix {
      assert ListsPath(Split(k), prefix);
    }
  }

  // ------------------------------------------------------------------------------------------
  // The map. Its answers are described by the requests that came before.

  /** Answer number `i` depends on the requests before it, and there is one for every request. */
  lemma {:induction false} AnswerAt(m: Blobs, rs: seq<Request>, i: nat)
    requires i < |rs|
    ensures |RunMap(m, rs)| == |rs| && RunMap(m, rs)[i] == MapStep(MapAfter(m, rs[..i]), rs[i]).1
    decreases |rs|
  {
    hide MapStep;
    if i == 0 {
      assert rs[..0] == [];
      if |rs| > 1 {
        AnswerAt(MapStep(m, rs[0]).0, rs[1..], 0);
      }
    } else {
      AnswerAt(MapStep(m, rs[0]).0, rs[1..], i - 1);
      AfterFirst(m, rs[..i]);
      assert rs[..i][1..] == rs[1..][..i - 1];
    }
  }

  lemma {:induction false} AfterFirst(m: Blobs, rs: seq<Request>)
    requires rs != []
    ensures MapAfter(m, rs) == MapAfter(MapStep(m, rs[0]).0, rs[1..])
    decreases |rs|
  {
    hide MapStep;
    var last := |rs| - 1;
    if last == 0 {
      assert rs[..0] == [] && rs[1..] == [];
    } else {
      AfterFirst(m, rs[..last]);
      assert rs[1..][..last - 1] == rs[..last][1..];
      assert rs[1..][last - 1] == rs[last];
    }
  }

  /** Request number `j` stored `data` at `k`, and nothing has changed `k` since. */
  predicate LastStored(rs: seq<Request>, j: nat, k: Str, data: seq<byte>) {
    && j < |rs| && rs[j] == Put(k, data)
    && forall n :: j < n < |rs| ==> rs[n] != Delete(k) && !(rs[n].Put? && rs[n].key == k)
  }

  /** Last write wins: the map holds a payload at a key exactly when the last change of the key was a put of it. */
  lemma {:induction false} LastWriteWins(rs: seq<Request>, k: Str)
    ensures k in MapAfter(map[], rs) ==> exists j :: LastStored(rs, j, k, MapAfter(map[], rs)[k])
    ensures forall j, data :: LastStored(rs, j, k, data) ==> k in MapAfter(map[], rs) && MapAfter(map[], rs)[k] == data
    decreases |rs|
  {
    if rs != [] {
      var last := |rs| - 1;
      var before := rs[..last];
      var r := rs[last];
      LastWriteWins(before, k);
      if r == Delete(k) || (r.Put? && r.key == k) {
        assert forall j, data :: LastStored(rs, j, k, data) ==> j == last;
        if r.Put? {
          assert LastStored(rs, last, k, r.data);
        }
      } else {
        forall j: nat, data
          ensures LastStored(rs, j, k, data) <==> LastStored(before, j, k, data)
        {
        }
      }
    }
  }

  /**
    The answers of the map in terms of the earlier requests alone: a get returns the payload of the last change of its
    key, if that was a put; a delete removes and an exists is true in the same case; otherwise the key is not found.
  */
  lemma MapAnswers(rs: seq<Request>, i: nat)
    requires i < |rs|
    ensures |RunMap(map[], rs)| == |rs|
    ensures
      var o := RunMap(map[], rs)[i];
      match rs[i]
      case Put(_, _) => o == Stored
      case Get(k) =>
        && (forall j, data :: LastStored(rs[..i], j, k, data) ==> o == Data(data))
        && ((forall j, data :: !LastStored(rs[..i], j, k, data)) ==> o == NotFound)
      case Delete(k) => o == if exists j, data :: LastStored(rs[..i], j, k, data) then Removed else NotFound
      case Exists(k) => o == Present(exists j, data :: LastStored(rs[..i], j, k, data))
      case List(prefix) =>
        && o.Listed?
        && (forall k :: k in o.keys <==>
              |prefix| <= |k| && k[..|prefix|] == prefix && exists j, data :: LastStored(rs[..i], j, k, data))
        && forall a, b :: 0 <= a < b < |o.keys| ==> LexLt(o.keys[a], o.keys[b])
  {
    hide Listing, LastStored, LexLt, RunMap, MapAfter;
    AnswerAt(map[], rs, i);
    var m := MapAfter(map[], rs[..i]);
    forall k
      ensures k in m ==> exists j :: LastStored(rs[..i], j, k, m[k])
      ensures forall j, data :: LastStored(rs[..i], j, k, data) ==> k in m && m[k] == data
    {
      LastWriteWins(rs[..i], k);
    }
  }
}
