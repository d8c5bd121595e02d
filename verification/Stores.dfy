/** The stores as they run: a directory tree of inodes, the two path-based stores on it, and the in-memory store. */
module Stores {
  import opened Bytes
  import Kernel
  import opened Keys
  import opened Order
  import opened FileModel
  import opened Walk
  import opened Engine
  import Leftovers
  import Transfer

  /** How a system call ends: done, refused by the state of the tree, or broken by the device. */
  datatype Sys = Done | Refused | Broken

  datatype Found = Inode(inode: Engine.Inode) | Directory | Absent | BehindFile

  /** Where a put keeps its temporary file: in a directory below the root, or in the directory that holds the root. */
  datatype Temp = Inside(path: Path) | Beside(name: Str)

  datatype DirEntry = DirEntry(path: Path, isDir: bool)

  function ViewOf(files: map<Path, Inode>, dirs: set<Path>): Tree
    reads files.Values
  {
    Tree(map p | p in files :: files[p].content, dirs)
  }

  lemma ViewOfAny(files: map<Path, Inode>, dirs: set<Path>, other: set<Path>)
    ensures ViewOf(files, dirs) == Tree(ViewOf(files, other).files, dirs)
    ensures ViewOf(files, dirs).files.Keys == files.Keys
  {
  }

  lemma ViewOfPublished(files: map<Path, Inode>, dirs: set<Path>, p: Path, inode: Inode)
    ensures ViewOf(files[p := inode], dirs).files == ViewOf(files, dirs).files[p := inode.content]
  {
  }

  lemma ViewOfRemoved(files: map<Path, Inode>, dirs: set<Path>, p: Path)
    ensures ViewOf(files - {p}, dirs) == Tree(ViewOf(files, dirs).files - {p}, dirs)
  {
  }

  lemma PrefixIsProper(d: Path, n: nat)
    requires ProperPath(d) && n < |d|
    ensures ProperPath(d[..n]) && Above(d[..n]) + {d[..n]} <= Above(d)
  {
  }

  lemma TempIsGone(files: map<Path, Inode>, tmp: Path, p: Path, inode: Inode)
    requires tmp !in files
    ensures files[tmp := inode] - {tmp} == files
    ensures (files[tmp := inode] - {tmp})[p := files[tmp := inode][tmp]] == files[p := inode]
  {
  }

  /**
    The part of the file system at and below `root`, and the files beside it. Each file path leads to one inode.
    `faults` counts the calls that the device or the kernel broke, `strays` lists the files ever created beside
    the root, `temps` the full paths given to temporary files; no code reads them. `dirLength` is the length that the file
    system reports for a directory, given the names there are.
  */
  class FileSystem {
    const root: Path
    const dirLength: (Path, set<Path>) -> nat
    var files: map<Path, Inode>
    var dirs: set<Path>
    var beside: map<Str, Inode>
    ghost var faults: nat
    ghost var strays: seq<Inode>
    ghost var temps: seq<Path>

    constructor (root: Path, dirLength: (Path, set<Path>) -> nat)
      ensures Valid() && View() == EMPTY_ROOT && this.root == root && this.dirLength == dirLength
    {
      this.root, this.dirLength := root, dirLength;
      files, dirs, beside := map[], {[]}, map[];
      faults, strays, temps := 0, [], [];
    }

    function View(): Tree
      reads this`files, this`dirs, files.Values
    {
      ViewOf(files, dirs)
    }

    ghost predicate Valid()
      reads this`files, this`dirs
    {
      Shaped(Entries(files.Keys, dirs))
    }

    lemma ValidIsWellFormed()
      requires Valid()
      ensures WellFormed(View())
      ensures View().files.Keys == files.Keys
    {
    }

    lemma DirectoryIsNoFile(p: Path)
      requires Valid()
      ensures p in dirs ==> p !in files && forall q :: q in Above(p) ==> q !in files
    {
      hide ProperPath;
    }

    /** What the operating system finds at a key. */
    method Find(key: Str) returns (r: Found)
      requires Valid()
      ensures match r
              case Inode(inode) =>
                && PathOf(key) in files && PathOf(key) !in dirs && files[PathOf(key)] == inode
                && Stat(View(), key) == File(inode.content)
              case Directory => PathOf(key) in dirs && Stat(View(), key) == Dir
              case Absent => PathOf(key) !in dirs && Stat(View(), key) == Missing
              case BehindFile => PathOf(key) !in dirs && Stat(View(), key) == NotADirectory
    {
      var p := PathOf(key);
      DirectoryIsNoFile(p);
      hide PathOf, EndsInDot, Shaped;
      if q :| q in Above(p) && q in files {
        assert q in View().files;
        return BehindFile;
      }
      assert View().files.Keys == files.Keys;
      if p in files {
        return if EndsInDot(key) then BehindFile else Found.Inode(files[p]);
      }
      return if p in dirs then Directory else Absent;
    }

    /** The tree is the same as long as its files, its directories and the contents are. */
    twostate lemma ViewStays()
      requires files == old(files) && dirs == old(dirs)
      requires forall p :: p in files ==> files[p].content == old(files[p].content)
      ensures View() == old(View())
    {
    }

    /** A call that may break for reasons outside the tree. */
    method Attempt() returns (ok: bool)
      modifies this`faults
      ensures faults == old(faults) + if ok then 0 else 1
    {
      ok := *;
      if !ok {
        faults := faults + 1;
      }
    }

    /** A call that moves some of `left` bytes; moving none is a fault. */
    method Moves(left: nat) returns (n: nat)
      requires left > 0
      modifies this`faults
      ensures n <= left && faults == old(faults) + if n > 0 then 0 else 1
    {
      var taken: int := *;
      n := if 0 <= taken <= left then taken else left;
      if n == 0 {
        faults := faults + 1;
      }
    }

    /** A ring call that failed did so because the kernel refused, reported an error or moved nothing. */
    ghost method Blame(ring: Ring, base: seq<int>, refusals: int)
      requires base <= ring.results
      requires refusals < ring.refusals || exists i :: |base| <= i < |ring.results| && ring.results[i] <= 0
      modifies this`faults
      ensures faults == old(faults) + 1
    {
      faults := faults + 1;
    }

    lemma RootIsDirectory()
      requires Valid()
      ensures [] in dirs
    {
    }

    /** Creates a directory and those above it. Nothing is created when a file is in the way. */
    method MakeDirs(d: Path) returns (r: Sys)
      requires Valid() && ProperPath(d)
      modifies this`dirs, this`faults
      ensures Valid() && faults == old(faults) + if r.Broken? then 1 else 0
      ensures r.Refused? ==> dirs == old(dirs) && exists q :: q in Above(d) + {d} && q in files
      ensures r.Done? ==> dirs == old(dirs) + Above(d) + {d} && forall q :: q in Above(d) + {d} ==> q !in files
      ensures r.Broken? ==> old(dirs) <= dirs <= old(dirs) + Above(d) + {d}
    {
      hide Shaped, ProperPath;
      if q :| q in Above(d) + {d} && q in files {
        return Refused;
      }
      var ok := Attempt();
      if !ok {
        // The first few may have been created.
        var some: int := *;
        if 0 <= some < |d| {
          PrefixIsProper(d, some);
          ShapeAddsDirs(Entries(files.Keys, dirs), d[..some]);
          dirs := dirs + Above(d[..some]) + {d[..some]};
        }
        return Broken;
      }
      ShapeAddsDirs(Entries(files.Keys, dirs), d);
      dirs := dirs + Above(d) + {d};
      return Done;
    }

    /** Creates an empty file under a fresh name with the given prefix. */
    method CreateTemp(dir: Path, prefix: Str) returns (r: Sys, path: Path, inode: Inode)
      requires Valid() && dir in dirs
      modifies this`files, this`temps, this`faults
      ensures fresh(inode) && inode.content == []
      ensures r.Done? ==> path != [] && Parent(path) == dir && prefix <= path[|path| - 1] && temps == old(temps) + [root + path]
      ensures !r.Done? ==> temps == old(temps)
      ensures Valid() && !r.Refused? && faults == old(faults) + if r.Done? then 0 else 1
      ensures r.Done? ==> path !in old(files) && path !in dirs && files == old(files)[path := inode]
      ensures !r.Done? ==> files == old(files)
    {
      inode := new Inode();
      var suffix: Str := *;
      var name := prefix + suffix;
      path := dir + [name];
      if !ProperName(name) || path in files || path in dirs {
        faults := faults + 1;
        return Broken, path, inode;
      }
      AboveChild(dir, name);
      ShapeAddsFile(Entries(files.Keys, dirs), path);
      files := files[path := inode];
      temps := temps + [root + path];
      assert files.Keys == old(files).Keys + {path};
      return Done, path, inode;
    }

    /** Creates an empty file under a fresh name with the given prefix, in the directory that holds the root. */
    method CreateBeside(prefix: Str) returns (r: Sys, name: Str, inode: Inode)
      requires root != []
      modifies this`beside, this`strays, this`temps, this`faults
      ensures fresh(inode) && inode.content == []
      ensures if r.Done? then temps == old(temps) + [Parent(root) + [name]] && prefix <= name else temps == old(temps)
      ensures !r.Refused? && faults == old(faults) + if r.Done? then 0 else 1
      ensures r.Done? ==>
                && name !in old(beside) && name != root[|root| - 1]
                && beside == old(beside)[name := inode] && strays == old(strays) + [inode]
      ensures !r.Done? ==> beside == old(beside) && strays == old(strays)
    {
      inode := new Inode();
      var suffix: Str := *;
      name := prefix + suffix;
      if !ProperName(name) || name in beside || name == root[|root| - 1] {
        faults := faults + 1;
        return Broken, name, inode;
      }
      beside := beside[name := inode];
      strays := strays + [inode];
      temps := temps + [Parent(root) + [name]];
      return Done, name, inode;
    }

    /** Removes an entry beside the root. */
    method UnlinkBeside(name: Str)
      modifies this`beside
      ensures beside == old(beside) - {name}
    {
      beside := beside - {name};
    }

    /** Replaces `to` by `from` in one step; a directory cannot be replaced. `asDir` says that `to` was written with a final dot. */
    method Rename(from: Path, to: Path, asDir: bool) returns (r: Sys)
      requires Valid() && from in files && ProperPath(to)
      requires to !in dirs && !asDir ==> Above(to) <= dirs
      modifies this`files, this`faults
      ensures faults == old(faults) + if r.Broken? then 1 else 0
      ensures r.Done? ==> Valid() && to !in dirs && !asDir && files == (old(files) - {from})[to := old(files)[from]]
      ensures r.Refused? ==> to in dirs || asDir
      ensures !r.Done? ==> files == old(files)
    {
      hide Shaped, ProperPath;
      if to in dirs || asDir {
        return Refused;
      }
      var ok := Attempt();
      if !ok {
        return Broken;
      }
      ShapeDropsFile(Entries(files.Keys, dirs), from);
      ShapeAddsFile(Entries(files.Keys - {from}, dirs), to);
      files := (files - {from})[to := files[from]];
      assert files.Keys == old(files).Keys - {from} + {to};
      return Done;
    }

    /** Removes a directory entry; the inode lives on while it is open. */
    method Unlink(path: Path)
      requires Valid()
      modifies this`files
      ensures Valid() && files == old(files) - {path}
    {
      hide Shaped;
      ShapeDropsFile(Entries(files.Keys, dirs), path);
      files := files - {path};
      assert files.Keys == old(files).Keys - {path};
    }

    /** The entries of a directory, each once, in an arbitrary order. */
    method ReadDir(dir: Path) returns (entries: seq<DirEntry>)
      requires Valid() && dir in dirs
      ensures forall i, j :: 0 <= i < j < |entries| ==> entries[i].path != entries[j].path
      ensures forall e :: e in entries ==> IsChild(e.path, dir) && if e.isDir then e.path in dirs else e.path in files
      ensures forall c :: IsChild(c, dir) && (c in files || c in dirs) ==> DirEntry(c, c in dirs) in entries
    {
      entries := [];
      var left := set c | c in files.Keys + dirs && IsChild(c, dir);
      while left != {}
        invariant forall i, j :: 0 <= i < j < |entries| ==> entries[i].path != entries[j].path
        invariant forall e :: e in entries ==>
                    && IsChild(e.path, dir) && e.path !in left
                    && if e.isDir then e.path in dirs else e.path in files
        invariant forall c :: c in left ==> IsChild(c, dir) && (c in files || c in dirs)
        invariant forall c :: IsChild(c, dir) && (c in files || c in dirs) ==>
                    c in left || DirEntry(c, c in dirs) in entries
        decreases left
      {
        var c :| c in left;
        left := left - {c};
        entries := entries + [DirEntry(c, c in dirs)];
      }
    }
  }

  /** `write_all`: the operating system may take any part of what is left each time. */
  method WriteAll(fs: FileSystem, inode: Inode, data: seq<byte>) returns (ok: bool)
    modifies inode`content, inode`synced, fs`faults
    ensures ok ==> inode.content == old(inode.content) + data
    ensures fs.faults == old(fs.faults) + if ok then 0 else 1
  {
    var pos := 0;
    while pos < |data|
      invariant 0 <= pos <= |data|
      invariant inode.content == old(inode.content) + data[..pos]
      invariant fs.faults == old(fs.faults)
    {
      var n := fs.Moves(|data| - pos);
      if n == 0 {
        return false;
      }
      inode.content := inode.content + data[pos..pos + n];
      inode.synced := false;
      assert data[..pos] + data[pos..pos + n] == data[..pos + n];
      pos := pos + n;
    }
    assert data[..|data|] == data;
    return true;
  }

  /** `sync_all`: success means that the device has the contents. */
  method SyncAll(fs: FileSystem, inode: Inode) returns (ok: bool)
    modifies inode`synced, fs`faults
    ensures ok ==> inode.synced
    ensures fs.faults == old(fs.faults) + if ok then 0 else 1
  {
    ok := fs.Attempt();
    if ok {
      inode.synced := true;
    }
  }

  /** Reads a file from beginning to end. */
  method ReadWhole(fs: FileSystem, inode: Inode) returns (r: Option<seq<byte>>)
    modifies fs`faults
    ensures fs.View() == old(fs.View())
    ensures fs.faults == old(fs.faults) + if r.None? then 1 else 0
    ensures r.Some? ==> r.value == inode.content
  {
    var ok := fs.Attempt();
    r := if ok then Some(inode.content) else None;
  }

  /** Only directories on the way to `p` may have appeared; files are as before. */
  ghost predicate Untouched(before: Tree, now: Tree, p: Path) {
    now.files == before.files && before.dirs <= now.dirs <= before.dirs + Above(p)
  }

  /** What a put finds before it fills the temporary file `tmp`: `files`, `dirs` and `beside` are from before the call. */
  ghost predicate Prepared(fs: FileSystem, key: Str, tmp: Temp, inode: Inode,
                           files: map<Path, Inode>, dirs: set<Path>, beside: map<Str, Inode>)
    reads fs`files, fs`dirs, fs`beside
  {
    && (forall q :: q in Above(PathOf(key)) ==> q !in files)
    && fs.dirs == dirs + Above(PathOf(key))
    && inode !in files.Values
    && match tmp
       case Inside(path) => path !in files && fs.files == files[path := inode] && fs.beside == beside
       case Beside(name) =>
         PathOf(key) == [] && fs.files == files && name !in beside && fs.beside == beside[name := inode]
  }

  /**
    What a put leaves in the record of files created beside the root: nothing, unless the key is made of dots only
    and the root has a parent; then, unless something breaks, one file that held the whole payload, synced.
  */
  ghost predicate Strays(root: Path, limit: Option<nat>, key: Str, data: seq<byte>, r: Outcome,
                         before: seq<Inode>, now: seq<Inode>)
    reads now
  {
    if Admitted(limit, key, data) && root != [] && OnlyDots(key) then
      && before <= now
      && (r.IoError? || r.Failed?)
      && (r.IoError? ==> |now| == |before| + 1 && now[|before|].content == data && now[|before|].synced)
    else now == before
  }

  lemma RootIsNotReplaced(fs: FileSystem, limit: Option<nat>, key: Str, data: seq<byte>)
    requires fs.Valid()
    ensures OnlyDots(key) <==> PathOf(key) == []
    ensures OnlyDots(key) && Admitted(limit, key, data) ==> PutTree(fs.View(), limit, key, data).1 == IoError
  {
    NamesRootExactly(key);
    NothingAboveTop();
    hide PathOf;
  }

  /** Creates the directories on the way to `p`. */
  method EnsureParent(fs: FileSystem, p: Path) returns (r: Sys)
    requires fs.Valid() && ProperPath(p) && p != []
    modifies fs`dirs, fs`faults
    ensures fs.Valid() && fs.faults == old(fs.faults) + if r.Broken? then 1 else 0
    ensures r.Refused? ==> fs.dirs == old(fs.dirs) && exists q :: q in Above(p) && q in fs.files
    ensures r.Done? ==>
              && fs.dirs == old(fs.dirs) + Above(p) && Parent(p) in fs.dirs
              && forall q :: q in Above(p) ==> q !in fs.files
    ensures r.Broken? ==> old(fs.dirs) <= fs.dirs <= old(fs.dirs) + Above(p)
  {
    assert p == Parent(p) + [p[|p| - 1]];
    AboveChild(Parent(p), p[|p| - 1]);
    r := fs.MakeDirs(Parent(p));
  }

  /** One more temporary file was made, in `dir`, under a name with the prefix. */
  predicate Named(before: seq<Path>, now: seq<Path>, dir: Path, prefix: Str) {
    && |now| == |before| + 1 && before <= now
    && now[|before|] != [] && Parent(now[|before|]) == dir
    && prefix <= now[|before|][|now[|before|]| - 1]
  }

  /** The parent directories of `p`, and a temporary file next to where `p` goes. */
  method MakeRoom(fs: FileSystem, p: Path, prefix: Str) returns (r: Sys, tmp: Path, inode: Inode)
    requires fs.Valid() && ProperPath(p)
    modifies fs`files, fs`dirs, fs`temps, fs`faults
    ensures fs.Valid() && fresh(inode) && inode.content == []
    ensures fs.faults == old(fs.faults) + if r.Broken? then 1 else 0
    ensures if r.Done? then Named(old(fs.temps), fs.temps, if p == [] then fs.root else fs.root + Parent(p), prefix) else fs.temps == old(fs.temps)
    ensures r.Refused? ==> fs.dirs == old(fs.dirs) && fs.files == old(fs.files) && exists q :: q in Above(p) && q in fs.files
    ensures r.Broken? ==> old(fs.dirs) <= fs.dirs <= old(fs.dirs) + Above(p) && fs.files == old(fs.files)
    ensures r.Done? ==>
              && fs.dirs == old(fs.dirs) + Above(p) && (forall q :: q in Above(p) ==> q !in old(fs.files))
              && tmp !in old(fs.files) && fs.files == old(fs.files)[tmp := inode]
  {
    fs.RootIsDirectory();
    NothingAboveTop();
    hide ProperPath, FileSystem.Valid, Above;
    if p == [] {
      r, tmp, inode := fs.CreateTemp([], prefix);
      return;
    }
    tmp := [];
    inode := new Inode();
    r := EnsureParent(fs, p);
    if r.Done? {
      r, tmp, inode := fs.CreateTemp(Parent(p), prefix);
    }
  }

  lemma NothingAboveTop()
    ensures Above([]) == {}
  {
  }

  /** The checks of a put. Stored stands for success so far. */
  method Screen(fs: FileSystem, limit: Option<nat>, key: Str, data: seq<byte>) returns (r: Outcome)
    requires ValidKey(key)
    ensures !r.Stored? ==> !r.Failed? && (fs.View(), r) == PutTree(fs.View(), limit, key, data)
    ensures r.Stored? <==> Admitted(limit, key, data)
    ensures ProperPath(PathOf(key))
  {
    PathStaysBelowRoot(key);
    hide PathOf, ValidKey, Resolve, PutTree, ViewOf, ProperPath;
    if limit.Some? && |data| > limit.value {
      PutNotAdmitted(fs.View(), limit, key, data);
      return StorageFull;
    }
    if Resolve(key).Rejected? {
      PutNotAdmitted(fs.View(), limit, key, data);
      return InvalidKey;
    }
    return Stored;
  }

  lemma WhereTempGoes(root: Path, key: Str)
    ensures root <= TempDir(root, key) <==> root == [] || PathOf(key) != []
    ensures PathOf(key) == [] <==> OnlyDots(key)
    ensures PathOf(key) != [] ==> TempDir(root, key) == root + Parent(PathOf(key))
    ensures PathOf(key) == [] ==> TempDir(root, key) == if root == [] then root else Parent(root)
  {
    hide PathOf, OnlyDots;
    NamesRootExactly(key);
    var p := PathOf(key);
    assert p != [] ==> Parent(root + p) == root + Parent(p);
    assert root + [] == root;
    if root != [] {
      TempDirBelowRootExactly(root, key);
    }
  }

  /** Makes the temporary file of a put beside the root exactly when the parent of the destination lies above the root. */
  method Stage(fs: FileSystem, key: Str, prefix: Str) returns (made: Sys, tmp: Temp, inode: Inode)
    requires fs.Valid() && ProperPath(PathOf(key))
    modifies fs
    ensures fs.Valid() && fresh(inode) && inode.content == []
    ensures fs.faults == old(fs.faults) + if made.Broken? then 1 else 0
    ensures if made.Done? then Named(old(fs.temps), fs.temps, TempDir(fs.root, key), prefix) else fs.temps == old(fs.temps)
    ensures !made.Done? ==> fs.files == old(fs.files) && fs.beside == old(fs.beside) && fs.strays == old(fs.strays)
    ensures made.Refused? ==> PathOf(key) != []
    ensures made.Refused? ==> fs.dirs == old(fs.dirs) && exists q :: q in Above(PathOf(key)) && q in old(fs.files)
    ensures made.Broken? ==> old(fs.dirs) <= fs.dirs <= old(fs.dirs) + Above(PathOf(key))
    ensures made.Done? ==>
              && Prepared(fs, key, tmp, inode, old(fs.files), old(fs.dirs), old(fs.beside))
              && (tmp.Beside? <==> fs.root != [] && OnlyDots(key))
              && fs.strays == old(fs.strays) + if tmp.Beside? then [inode] else []
  {
    WhereTempGoes(fs.root, key);
    ghost var files, dirs, beside := fs.files, fs.dirs, fs.beside;
    hide PathOf, FileSystem.Valid, Above, ProperPath, OnlyDots, TempDir, Prepared;
    if fs.root <= TempDir(fs.root, key) {
      var path;
      made, path, inode := MakeRoom(fs, PathOf(key), prefix);
      tmp := Inside(path);
      if made.Done? {
        PreparedInside(fs, key, path, inode, files, dirs, beside);
      }
    } else {
      var name;
      made, name, inode := fs.CreateBeside(prefix);
      tmp := Beside(name);
      if made.Done? {
        PreparedBeside(fs, key, name, inode, files, dirs, beside);
      }
    }
  }

  lemma PreparedInside(fs: FileSystem, key: Str, path: Path, inode: Inode,
                       files: map<Path, Inode>, dirs: set<Path>, beside: map<Str, Inode>)
    requires (forall q :: q in Above(PathOf(key)) ==> q !in files) && fs.dirs == dirs + Above(PathOf(key))
    requires inode !in files.Values && path !in files && fs.files == files[path := inode] && fs.beside == beside
    ensures Prepared(fs, key, Inside(path), inode, files, dirs, beside)
  {
  }

  lemma PreparedBeside(fs: FileSystem, key: Str, name: Str, inode: Inode,
                       files: map<Path, Inode>, dirs: set<Path>, beside: map<Str, Inode>)
    requires PathOf(key) == [] && fs.files == files && fs.dirs == dirs
    requires inode !in files.Values && name !in beside && fs.beside == beside[name := inode]
    ensures Prepared(fs, key, Beside(name), inode, files, dirs, beside)
  {
    NothingAboveTop();
  }

  /** The parent directories and the temporary file of a put. Stored stands for success so far. */
  method Prepare(fs: FileSystem, limit: Option<nat>, key: Str, data: seq<byte>, prefix: Str)
    returns (r: Outcome, tmp: Temp, inode: Inode)
    requires fs.Valid() && Admitted(limit, key, data) && ProperPath(PathOf(key))
    modifies fs
    ensures fs.Valid() && fresh(inode) && inode.content == []
    ensures fs.faults == old(fs.faults) + if r.Failed? then 1 else 0
    ensures if r.Stored? then Named(old(fs.temps), fs.temps, TempDir(fs.root, key), prefix) else fs.temps == old(fs.temps)
    ensures !r.Stored? && !r.Failed? ==> (fs.View(), r) == PutTree(ViewOf(old(fs.files), old(fs.dirs)), limit, key, data)
    ensures !r.Stored? ==> fs.files == old(fs.files) && fs.beside == old(fs.beside) && fs.strays == old(fs.strays)
    ensures r.Failed? ==> Untouched(ViewOf(old(fs.files), old(fs.dirs)), fs.View(), PathOf(key))
    ensures !r.Stored? && !r.Failed? ==> PathOf(key) != []
    ensures r.Stored? ==>
              && Prepared(fs, key, tmp, inode, old(fs.files), old(fs.dirs), old(fs.beside))
              && (tmp.Beside? <==> fs.root != [] && OnlyDots(key))
              && fs.strays == old(fs.strays) + if tmp.Beside? then [inode] else []
  {
    ghost var files, dirs := fs.files, fs.dirs;
    hide PathOf, PutTree, ViewOf, FileSystem.Valid, Above, ProperPath, Untouched, Admitted, OnlyDots, Prepared;
    var made;
    made, tmp, inode := Stage(fs, key, prefix);
    match made
    case Refused =>
      ViewOfAny(files, dirs, dirs);
      PutBlocked(ViewOf(files, dirs), limit, key, data);
      r := IoError;
    case Broken =>
      UntouchedByFailure(files, dirs, fs.dirs, PathOf(key));
      r := Failed;
    case Done =>
      r := Stored;
  }

  lemma UntouchedByFailure(files: map<Path, Inode>, dirs: set<Path>, now: set<Path>, p: Path)
    requires dirs <= now <= dirs + Above(p)
    ensures Untouched(ViewOf(files, dirs), ViewOf(files, now), p)
  {
  }

  /** Renames the temporary file if it is ready, and drops it if that is not to be. */
  method RenameOrDrop(fs: FileSystem, tmp: Path, p: Path, asDir: bool, ready: bool) returns (renamed: Sys)
    requires fs.Valid() && tmp in fs.files && ProperPath(p) && Above(p) <= fs.dirs
    modifies fs`files, fs`faults
    ensures fs.Valid() && fs.faults == old(fs.faults) + if ready && renamed.Broken? then 1 else 0
    ensures !ready ==> renamed.Broken?
    ensures renamed.Refused? ==> p in fs.dirs || asDir
    ensures renamed.Done? ==> p !in fs.dirs && !asDir
    ensures renamed.Done? ==> fs.files == (old(fs.files) - {tmp})[p := old(fs.files)[tmp]]
    ensures !renamed.Done? ==> fs.files == old(fs.files) - {tmp}
  {
    hide ProperPath, FileSystem.Valid, Above;
    renamed := Broken;
    if ready {
      renamed := fs.Rename(tmp, p, asDir);
    }
    if !renamed.Done? {
      fs.Unlink(tmp);
    }
  }

  /** What becomes of the tree when a prepared put is renamed into place, or is not. */
  lemma PublishedView(files: map<Path, Inode>, dirs: set<Path>, limit: Option<nat>, key: Str, data: seq<byte>, inode: Inode)
    requires Admitted(limit, key, data)
    requires forall q :: q in Above(PathOf(key)) ==> q !in files
    ensures
      var now := dirs + Above(PathOf(key));
      && (inode.content == data && !EndsInDot(key) && PathOf(key) !in now ==>
            (ViewOf(files[PathOf(key) := inode], now), Stored) == PutTree(ViewOf(files, dirs), limit, key, data))
      && (EndsInDot(key) || PathOf(key) in now ==>
            (ViewOf(files, now), IoError) == PutTree(ViewOf(files, dirs), limit, key, data))
      && Untouched(ViewOf(files, dirs), ViewOf(files, now), PathOf(key))
  {
    hide PathOf, Resolve, PutTree, EndsInDot, ViewOf, Admitted, Above;
    var before, p := ViewOf(files, dirs), PathOf(key);
    var now := dirs + Above(p);
    ViewOfAny(files, dirs, dirs);
    ViewOfAny(files, now, dirs);
    if EndsInDot(key) || p in now {
      PutRefused(before, limit, key, data);
    } else {
      PutStores(before, limit, key, data);
      ViewOfPublished(files, now, p, inode);
    }
    if !EndsInDot(key) && p !in now {
      ViewOfAny(files[p := inode], now, now);
    }
  }

  /** The rename that publishes a filled and synced temporary file; on any failure the temporary file is dropped. */
  method Publish(fs: FileSystem, limit: Option<nat>, key: Str, data: seq<byte>, tmp: Temp, inode: Inode, ready: bool,
                 ghost files: map<Path, Inode>, ghost dirs: set<Path>, ghost beside: map<Str, Inode>)
    returns (r: Outcome)
    requires fs.Valid() && ValidKey(key) && Admitted(limit, key, data)
    requires Prepared(fs, key, tmp, inode, files, dirs, beside)
    requires ready ==> inode.content == data && inode.synced
    modifies fs`files, fs`beside, fs`faults
    ensures fs.Valid() && fs.faults == old(fs.faults) + if r.Failed? && ready then 1 else 0
    ensures (!ready ==> r.Failed?) && fs.beside == beside
    ensures fs.files == if r.Stored? then files[PathOf(key) := inode] else files
    ensures !r.Failed? ==> (fs.View(), r) == PutTree(ViewOf(files, dirs), limit, key, data)
    ensures r.Failed? ==> Untouched(ViewOf(files, dirs), fs.View(), PathOf(key))
  {
    PathStaysBelowRoot(key);
    fs.RootIsDirectory();
    NothingAboveTop();
    hide PathOf, ValidKey, Resolve, PutTree, EndsInDot, FileSystem.Valid, ViewOf, Admitted, Above, Untouched;
    var p := PathOf(key);
    var renamed: Sys;
    match tmp {
      case Inside(path) =>
        TempIsGone(files, path, p, inode);
        renamed := RenameOrDrop(fs, path, p, EndsInDot(key), ready);
      case Beside(name) =>
        // The destination is the root itself, and no file can replace a directory.
        renamed := if ready then Refused else Broken;
        fs.UnlinkBeside(name);
        assert beside[name := inode] - {name} == beside;
    }
    PublishedView(files, dirs, limit, key, data, inode);
    match renamed
    case Done =>
      assert fs.files == files[p := inode];
      r := Stored;
    case Refused =>
      assert fs.files == files;
      r := IoError;
    case Broken =>
      assert fs.files == files;
      r := Failed;
  }

  /** Unlinks the file at a key. */
  method RemoveKey(fs: FileSystem, key: Str) returns (r: Outcome)
    requires fs.Valid()
    modifies fs`files, fs`faults
    ensures fs.Valid() && fs.faults == old(fs.faults) + if r.Failed? then 1 else 0
    ensures !r.Failed? ==> (fs.View(), r) == DeleteTree(old(fs.View()), key)
    ensures r.Failed? ==> fs.View() == old(fs.View())
    ensures fs.files == if r.Removed? then old(fs.files) - {PathOf(key)} else old(fs.files)
  {
    if Resolve(key).Rejected? {
      return InvalidKey;
    }
    var found := fs.Find(key);
    hide PathOf, Resolve, Stat, ViewOf, FileSystem.Valid, FileSystem.View;
    match found
    case Inode(_) =>
      var ok := UnlinkFile(fs, PathOf(key));
      r := if ok then Removed else Failed;
    case Absent =>
      r := NotFound;
    case Directory =>
      r := IoError;
    case BehindFile =>
      r := IoError;
  }

  /** Removes a stored object, or fails and leaves it. */
  method UnlinkFile(fs: FileSystem, p: Path) returns (ok: bool)
    requires fs.Valid()
    modifies fs`files, fs`faults
    ensures fs.Valid() && fs.faults == old(fs.faults) + if ok then 0 else 1
    ensures fs.files == if ok then old(fs.files) - {p} else old(fs.files)
    ensures ok ==> fs.View() == old(fs.View()).(files := old(fs.View()).files - {p})
    ensures !ok ==> fs.View() == old(fs.View())
  {
    ViewOfRemoved(fs.files, fs.dirs, p);
    ViewOfAny(fs.files, fs.dirs, fs.dirs);
    hide ViewOf, FileSystem.Valid;
    ok := fs.Attempt();
    if ok {
      fs.Unlink(p);
    }
  }

  method HasKey(fs: FileSystem, key: Str) returns (r: Outcome)
    requires fs.Valid()
    ensures r == ExistsTree(fs.View(), key)
  {
    if Resolve(key).Rejected? {
      return InvalidKey;
    }
    var found := fs.Find(key);
    match found
    case Inode(_) =>
      r := Present(true);
    case Directory =>
      r := Present(true);
    case Absent =>
      r := Present(false);
    case BehindFile =>
      r := IoError;
  }

  /** The paths of the directory entries from number `i` on. */
  function PathsFrom(entries: seq<DirEntry>, i: nat): seq<Path>
    requires i <= |entries|
  {
    seq(|entries| - i, k requires 0 <= k < |entries| - i => entries[i + k].path)
  }

  lemma PathsFromNext(entries: seq<DirEntry>, i: nat)
    requires i < |entries|
    ensures PathsFrom(entries, i) != [] && PathsFrom(entries, i)[0] == entries[i].path
    ensures PathsFrom(entries, i)[1..] == PathsFrom(entries, i + 1)
  {
  }

  lemma PathsFromEnd(entries: seq<DirEntry>)
    ensures PathsFrom(entries, |entries|) == []
  {
  }

  lemma EntriesAreChildren(e: Entries, dir: Path, entries: seq<DirEntry>)
    requires forall i, j :: 0 <= i < j < |entries| ==> entries[i].path != entries[j].path
    requires forall x :: x in entries ==> IsChild(x.path, dir) && if x.isDir then x.path in e.dirs else x.path in e.files
    requires forall c :: IsChild(c, dir) && (c in e.files || c in e.dirs) ==> DirEntry(c, c in e.dirs) in entries
    ensures Distinct(PathsFrom(entries, 0))
    ensures forall c :: c in PathsFrom(entries, 0) <==> (c in e.files || c in e.dirs) && IsChild(c, dir)
  {
    var paths := PathsFrom(entries, 0);
    forall c | (c in e.files || c in e.dirs) && IsChild(c, dir)
      ensures c in paths
    {
      var i :| 0 <= i < |entries| && entries[i] == DirEntry(c, c in e.dirs);
      assert paths[i] == c;
    }
    forall c | c in paths
      ensures (c in e.files || c in e.dirs) && IsChild(c, dir)
    {
      var i :| 0 <= i < |paths| && paths[i] == c;
      assert entries[i] in entries;
    }
  }

  /** Objects are files under the root. */
  class LocalStore {
    const fs: FileSystem
    const limit: Option<nat>

    constructor (fs: FileSystem, limit: Option<nat>)
      ensures this.fs == fs && this.limit == limit
    {
      this.fs := fs;
      this.limit := limit;
    }

    /**
      Parents, temporary file, write, sync, rename. Whatever breaks on the way, no stored object changes.
      The inodes of stored objects are not in the modifies clause: they are replaced, never written. A key made
      of dots only names the root: unless something breaks, its payload is written and synced beside the root
      before the rename fails.
    */
    method Put(key: Str, data: seq<byte>) returns (r: Outcome)
      requires fs.Valid() && ValidKey(key)
      modifies fs
      ensures fs.Valid() && fs.faults == old(fs.faults) + if r.Failed? then 1 else 0
      ensures !r.Failed? ==> (fs.View(), r) == PutTree(old(fs.View()), limit, key, data)
      ensures r.Failed? ==> Untouched(old(fs.View()), fs.View(), PathOf(key))
      ensures r.Stored? ==>
                && PathOf(key) in fs.files && fs.files[PathOf(key)].synced && fresh(fs.files[PathOf(key)])
                && fs.files[PathOf(key)].content == data
                && fs.files == old(fs.files)[PathOf(key) := fs.files[PathOf(key)]]
      ensures !r.Stored? ==> fs.files == old(fs.files)
      ensures fs.beside == old(fs.beside)
      ensures fs.temps == old(fs.temps) || Named(old(fs.temps), fs.temps, TempDir(fs.root, key), TEMP_PREFIX)
      ensures r.Stored? ==> fs.temps != old(fs.temps)
      ensures Strays(fs.root, limit, key, data, r, old(fs.strays), fs.strays)
    {
      hide PathOf, ValidKey, FileSystem.Valid, PutTree, Prepared, ViewOf, Admitted, ProperPath, OnlyDots;
      ghost var files, dirs, beside := fs.files, fs.dirs, fs.beside;
      RootIsNotReplaced(fs, limit, key, data);
      r := Screen(fs, limit, key, data);
      if !r.Stored? {
        return;
      }
      var tmp, inode;
      r, tmp, inode := Prepare(fs, limit, key, data, TEMP_PREFIX);
      if r.Stored? {
        var ok := WriteAll(fs, inode, data);
        if ok {
          ok := SyncAll(fs, inode);
        }
        r := Publish(fs, limit, key, data, tmp, inode, ok, files, dirs, beside);
      }
    }

    method Get(key: Str) returns (r: Outcome)
      requires fs.Valid()
      modifies fs`faults
      ensures fs.faults == old(fs.faults) + if r.Failed? then 1 else 0
      ensures !r.Failed? ==> r == GetTree(fs.View(), key)
    {
      if Resolve(key).Rejected? {
        return InvalidKey;
      }
      var found := fs.Find(key);
      hide PathOf, Resolve, Stat, ViewOf, FileSystem.Valid, FileSystem.View;
      match found
      case Inode(inode) =>
        var read := ReadWhole(fs, inode);
        r := if read.Some? then Data(read.value) else Failed;
      case Absent =>
        r := NotFound;
      case Directory =>
        r := IoError;
      case BehindFile =>
        r := IoError;
    }

    method Delete(key: Str) returns (r: Outcome)
      requires fs.Valid()
      modifies fs`files, fs`faults
      ensures fs.Valid() && fs.faults == old(fs.faults) + if r.Failed? then 1 else 0
      ensures !r.Failed? ==> (fs.View(), r) == DeleteTree(old(fs.View()), key)
      ensures r.Failed? ==> fs.View() == old(fs.View())
      ensures fs.files == if r.Removed? then old(fs.files) - {PathOf(key)} else old(fs.files)
    {
      r := RemoveKey(fs, key);
    }

    method Exists(key: Str) returns (r: Outcome)
      requires fs.Valid()
      ensures r == ExistsTree(fs.View(), key)
    {
      r := HasKey(fs, key);
    }

    /**
      Walks the tree with an explicit stack, skips directories that cannot hold a match, and sorts. The
      result does not depend on the order in which directories are read.
    */
    method List(prefix: Str) returns (out: seq<Str>)
      requires fs.Valid()
      ensures out == Listing(ListedKeys(fs.files.Keys, prefix)) && Ascending(out)
      ensures TreeStep(fs.View(), Request.List(prefix)).1 == Listed(out)
    {
      hide Walked, Keeps, ValidKey, Join, PathsFrom, IsChild, Shaped, Distinct, ListedKeys, StrictlySorted, NoDuplicates,
           Ascending, ViewOf, Listing, StartsWith;
      ViewOfAny(fs.files, fs.dirs, fs.dirs);
      ghost var e := Entries(fs.files.Keys, fs.dirs);
      ghost var visited, found, at := {}, {}, [];
      out := [];
      var stack: seq<Path> := [[]];
      WalkStarts(e, prefix);
      while stack != []
        invariant Walked(e, prefix, stack, visited, found, out, at, [])
        decreases e.dirs - visited
      {
        var dir, rest := stack[|stack| - 1], stack[..|stack| - 1];
        assert stack == rest + [dir];
        stack := rest;
        WalkTopIsDirectory(e, prefix, rest, dir, visited, found, out, at);
        var entries := fs.ReadDir(dir);
        EntriesAreChildren(e, dir, entries);
        PathsFromEnd(entries);
        WalkOpens(e, prefix, rest, dir, visited, found, out, at, PathsFrom(entries, 0));
        visited, at := visited + {dir}, dir;
        for i := 0 to |entries|
          invariant Walked(e, prefix, stack, visited, found, out, at, PathsFrom(entries, i))
        {
          var path, isDir := entries[i].path, entries[i].isDir;
          PathsFromNext(entries, i);
          if isDir {
            WalkPassesDirectory(e, prefix, stack, visited, found, out, at, PathsFrom(entries, i));
            if Keeps(path, prefix) {
              stack := stack + [path];
            }
            continue;
          }
          found := WalkPassesFile(e, prefix, stack, visited, found, out, at, PathsFrom(entries, i));
          var relative := Join(path);
          if !StartsWith(relative, prefix) {
            continue;
          }
          var valid := Validate(relative);
          if valid.Valid? {
            out := out + [relative];
          }
        }
      }
      WalkEnds(e, prefix, visited, found, out, at);
      out := Sort(out);
      ListingIsUnique(out, ListedKeys(e.files, prefix));
    }
  }

  const RING_SIZE := 64
  const CHUNK_SIZE := 128 * 1024

  /** `.blobkit-ring-`, the prefix of this store's temporary files. */
  const RING_TEMP_PREFIX: Str := TEMP_PREFIX + [114, 105, 110, 103, 45]

  lemma RingTempPrefixText()
    ensures |RING_TEMP_PREFIX| == |".blobkit-ring-"|
    ensures forall i :: 0 <= i < |RING_TEMP_PREFIX| ==> RING_TEMP_PREFIX[i] == ".blobkit-ring-"[i] as int
  {
  }

  /** The same layout and the same answers, with the bytes moved by the io_uring engine. */
  class IoUringStore {
    const fs: FileSystem
    const limit: Option<nat>

    constructor (fs: FileSystem, limit: Option<nat>)
      ensures this.fs == fs && this.limit == limit
    {
      this.fs := fs;
      this.limit := limit;
    }

    /**
      As `LocalStore.Put`, for every schedule of the ring. `ring` is the ring that was used, if any: after a failure
      it may still hold operations, but its file is a new one that no name leads to.
    */
    method Put(key: Str, data: seq<byte>) returns (r: Outcome, ghost ring: Ring?)
      requires fs.Valid() && ValidKey(key) && |data| < U64_SIZE
      modifies fs
      ensures fs.Valid() && fs.faults == old(fs.faults) + if r.Failed? then 1 else 0
      ensures !r.Failed? ==> (fs.View(), r) == PutTree(old(fs.View()), limit, key, data)
      ensures r.Failed? ==> Untouched(old(fs.View()), fs.View(), PathOf(key))
      ensures r.Stored? ==>
                && PathOf(key) in fs.files && fs.files[PathOf(key)].synced && fresh(fs.files[PathOf(key)])
                && fs.files[PathOf(key)].content == data
                && fs.files == old(fs.files)[PathOf(key) := fs.files[PathOf(key)]]
      ensures !r.Stored? ==> fs.files == old(fs.files)
      ensures fs.beside == old(fs.beside)
      ensures fs.temps == old(fs.temps) || Named(old(fs.temps), fs.temps, TempDir(fs.root, key), RING_TEMP_PREFIX)
      ensures r.Stored? ==> fs.temps != old(fs.temps)
      ensures Strays(fs.root, limit, key, data, r, old(fs.strays), fs.strays)
      ensures r.Stored? ==> ring != null && ring.Quiescent()
      ensures ring != null ==>
                && fresh(ring) && ring.capacity == 64
                && Leftovers.Filled(Kernel.Write, 64, [], Transfer.Cut(0, 131072, 0, |data|), map[], 0).0 <= ring.submitted
                && fresh(ring.inode)
                && (!r.Stored? ==> ring.inode !in fs.files.Values && ring.inode !in fs.beside.Values)
                && forall t :: Kernel.Reaches(ring.View(data), t) ==> t.mem == data && Transfer.WriteFrame([], t.file, 0, data)
    {
      hide PathOf, ValidKey, FileSystem.Valid, PutTree, Prepared, ViewOf, Admitted, ProperPath, OnlyDots,
           Transfer.WriteFrame, Kernel.Reaches;
      ghost var files, dirs, beside := fs.files, fs.dirs, fs.beside;
      RootIsNotReplaced(fs, limit, key, data);
      ring := null;
      r := Screen(fs, limit, key, data);
      if !r.Stored? {
        return;
      }
      var tmp, inode;
      r, tmp, inode := Prepare(fs, limit, key, data, RING_TEMP_PREFIX);
      if r.Stored? {
        var ready;
        ready, ring := FillByRing(fs, inode, data);
        r := Publish(fs, limit, key, data, tmp, inode, ready, files, dirs, beside);
      }
    }

    method Get(key: Str) returns (r: Outcome)
      requires fs.Valid()
      requires forall p :: p in fs.files ==> |fs.files[p].content| < U64_SIZE
      modifies fs`faults, fs.files.Values
      ensures fs.View() == old(fs.View())
      ensures fs.faults == old(fs.faults) + if r.Failed? then 1 else 0
      ensures !r.Failed? ==>
                r == if PathOf(key) in fs.dirs && Resolve(key).Under? && fs.dirLength(PathOf(key), fs.files.Keys + fs.dirs) == 0
                     then Data([]) else GetTree(old(fs.View()), key)
    {
      if Resolve(key).Rejected? {
        return InvalidKey;
      }
      var found := fs.Find(key);
      hide PathOf, Resolve, Stat, ViewOf, FileSystem.Valid, FileSystem.View, Transfer.Explained;
      match found
      case Inode(inode) =>
        var read := ReadByRing(fs, inode);
        r := if read.Some? then Data(read.value) else Failed;
      case Absent =>
        r := NotFound;
      case Directory =>
        // A directory opens; its length is up to the file system, and reading no bytes succeeds.
        r := if fs.dirLength(PathOf(key), fs.files.Keys + fs.dirs) == 0 then Data([]) else IoError;
      case BehindFile =>
        r := IoError;
    }

    method Delete(key: Str) returns (r: Outcome)
      requires fs.Valid()
      modifies fs`files, fs`faults
      ensures fs.Valid() && fs.faults == old(fs.faults) + if r.Failed? then 1 else 0
      ensures !r.Failed? ==> (fs.View(), r) == DeleteTree(old(fs.View()), key)
      ensures r.Failed? ==> fs.View() == old(fs.View())
      ensures fs.files == if r.Removed? then old(fs.files) - {PathOf(key)} else old(fs.files)
    {
      r := RemoveKey(fs, key);
    }

    method Exists(key: Str) returns (r: Outcome)
      requires fs.Valid()
      ensures r == ExistsTree(fs.View(), key)
    {
      r := HasKey(fs, key);
    }

    method List(prefix: Str) returns (out: seq<Str>)
      requires fs.Valid()
      ensures out == Listing(ListedKeys(fs.files.Keys, prefix)) && Ascending(out)
      ensures TreeStep(fs.View(), Request.List(prefix)).1 == Listed(out)
    {
      var local := new LocalStore(fs, None);
      out := local.List(prefix);
    }
  }

  /** Writes a payload into an empty file through a fresh ring and syncs it. */
  method FillByRing(fs: FileSystem, inode: Inode, data: seq<byte>) returns (ok: bool, ghost ring: Ring)
    requires inode.content == [] && |data| < U64_SIZE
    modifies inode, fs`faults
    ensures ok ==> inode.content == data && inode.synced
    ensures fs.faults == old(fs.faults) + if ok then 0 else 1
    ensures ring.capacity == 64
    ensures Leftovers.Filled(Kernel.Write, 64, [], Transfer.Cut(0, 131072, 0, |data|), map[], 0).0 <= ring.submitted
    ensures fresh(ring) && ring.inode == inode && (ok ==> ring.Quiescent())
    ensures forall t :: Kernel.Reaches(ring.View(data), t) ==> t.mem == data && Transfer.WriteFrame([], t.file, 0, data)
  {
    var f := new IoUringFile(inode, RING_SIZE, RING_SIZE, CHUNK_SIZE);
    ring := f.ring;
    inode.synced := false;
    ghost var base, refusals := f.ring.results, f.ring.refusals;
    var written := f.WriteAllAt(0, data);
    if !written.Ok? {
      Transfer.OkExactlyWhenAnswersPositive(Kernel.Write, written, |data|, |inode.content|, base, f.ring.results, f.ring.refusals - refusals);
      fs.Blame(f.ring, base, refusals);
      ok := false;
      return;
    }
    ok := SyncAll(fs, inode);
  }

  /**
    Reads the length, then the bytes. The file's contents do not change, so the length fits and the ring
    can neither fall short nor return other bytes; only a kernel error fails the call.
  */
  method ReadByRing(fs: FileSystem, inode: Inode) returns (r: Option<seq<byte>>)
    requires |inode.content| < U64_SIZE
    modifies inode`content, fs`faults
    ensures inode.content == old(inode.content) && fs.View() == old(fs.View())
    ensures fs.faults == old(fs.faults) + if r.None? then 1 else 0
    ensures r.Some? ==> r.value == inode.content
  {
    var f := new IoUringFile(inode, RING_SIZE, RING_SIZE, CHUNK_SIZE);
    var buf := new byte[|inode.content|](_ => 0);
    ghost var base, refusals := f.ring.results, f.ring.refusals;
    var read := f.ReadAllAt(0, buf);
    assert !read.UnexpectedEof?;
    fs.ViewStays();
    hide FileSystem.View;
    if read.Ok? {
      return Some(buf[..]);
    }
    Transfer.OkExactlyWhenAnswersPositive(Kernel.Read, read, buf.Length, |inode.content|, base, f.ring.results, f.ring.refusals - refusals);
    fs.Blame(f.ring, base, refusals);
    return None;
  }

  datatype Metadata = Metadata(key: Str, size: nat)

  datatype Entry = Entry(data: seq<byte>, meta: Metadata)

  /** A map from keys to payloads with their metadata. */
  class MemoryStore {
    var inner: map<Str, Entry>

    constructor ()
      ensures Valid() && Contents() == map[]
    {
      inner := map[];
    }

    ghost predicate Valid()
      reads this
    {
      forall k :: k in inner ==> inner[k].meta == Metadata(k, |inner[k].data|)
    }

    ghost function Contents(): Blobs
      reads this
    {
      map k | k in inner :: inner[k].data
    }

    method Put(key: Str, data: seq<byte>) returns (r: Outcome)
      requires Valid()
      modifies this
      ensures Valid() && (Contents(), r) == MapStep(old(Contents()), Request.Put(key, data))
      ensures r == Stored && Contents() == old(Contents())[key := data]
    {
      inner := inner[key := Entry(data, Metadata(key, |data|))];
      assert Contents() == old(Contents())[key := data];
      r := Stored;
    }

    method Get(key: Str) returns (r: Outcome)
      ensures r == MapStep(Contents(), Request.Get(key)).1
      ensures r == if key in Contents() then Data(Contents()[key]) else NotFound
    {
      r := if key in inner then Data(inner[key].data) else NotFound;
    }

    method Delete(key: Str) returns (r: Outcome)
      requires Valid()
      modifies this
      ensures Valid() && (Contents(), r) == MapStep(old(Contents()), Request.Delete(key))
      ensures Contents() == old(Contents()) - {key} && r == if key in old(Contents()) then Removed else NotFound
    {
      var removed := key in inner;
      inner := inner - {key};
      assert Contents() == old(Contents()) - {key};
      assert !removed ==> old(Contents()) - {key} == old(Contents());
      r := if removed then Removed else NotFound;
    }

    method Exists(key: Str) returns (r: Outcome)
      ensures r == MapStep(Contents(), Request.Exists(key)).1
      ensures r == Present(key in Contents())
    {
      r := Present(key in inner);
    }

    /** Collects the matching keys in whatever order the map yields them, then sorts. */
    method List(prefix: Str) returns (out: seq<Str>)
      ensures out == Listing(KeysUnder(Contents(), prefix))
      ensures forall k :: k in out <==> k in Contents() && |prefix| <= |k| && k[..|prefix|] == prefix
      ensures Ascending(out)
    {
      hide Ascending, Listing, StrictlySorted;
      var keys := ListKeys();
      out := [];
      for i := 0 to |keys|
        invariant NoDuplicates(out)
        invariant forall k :: k in out <==> k in keys[..i] && StartsWith(k, prefix)
      {
        if StartsWith(keys[i], prefix) {
          out := out + [keys[i]];
        }
      }
      assert keys[..|keys|] == keys;
      out := Sort(out);
      ListingIsUnique(out, KeysUnder(Contents(), prefix));
    }

    /** Every key once, in no particular order. */
    method ListKeys() returns (keys: seq<Str>)
      ensures NoDuplicates(keys)
      ensures forall k :: k in keys <==> k in Contents()
    {
      keys := [];
      var left := inner.Keys;
      while left != {}
        invariant left <= inner.Keys && NoDuplicates(keys)
        invariant forall k :: k in keys <==> k in inner && k !in left
        decreases left
      {
        var k :| k in left;
        left := left - {k};
        keys := keys + [k];
      }
    }

    method MetadataOf(key: Str) returns (r: Option<Metadata>)
      requires Valid()
      ensures r == if key in Contents() then Some(Metadata(key, |Contents()[key]|)) else None
    {
      r := if key in inner then Some(inner[key].meta) else None;
    }

    method Len() returns (n: nat)
      ensures n == |Contents()|
    {
      assert Contents().Keys == inner.Keys;
      n := |inner|;
    }

    method Clear()
      modifies this
      ensures Valid() && Contents() == map[]
    {
      inner := map[];
    }
  }
}
