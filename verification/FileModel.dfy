/**
  What the operations of a path-based store do to a directory tree, one call at a time, and the map
  they are meant to be. A tree is a set of directories and a map from file paths to contents; symbolic
  links, permissions and other programs' files are not part of it.
*/
module FileModel {
  import opened Bytes
  import opened Keys
  import opened Order

  datatype Tree = Tree(files: map<Path, seq<byte>>, dirs: set<Path>)

  const EMPTY_ROOT := Tree(map[], {[]})

  function Parent(p: Path): Path
    requires p != []
  {
    p[..|p| - 1]
  }

  /** The directories on the way to `p`, the root included, `p` itself not. */
  function Above(p: Path): (r: set<Path>)
    ensures forall d :: d in r <==> d < p
  {
    assert forall d: Path :: d < p ==> d == p[..|d|];
    set i | 0 <= i < |p| :: p[..i]
  }

  lemma AboveChild(dir: Path, name: Str)
    ensures Above(dir + [name]) == Above(dir) + {dir}
  {
    var path := dir + [name];
    assert path[..|dir|] == dir;
    forall q | q in Above(path)
      ensures q in Above(dir) || q == dir
    {
      assert q == path[..|q|];
      assert |q| < |dir| ==> q == dir[..|q|];
    }
  }

  /** The names of a tree, without the contents. */
  datatype Entries = Entries(files: set<Path>, dirs: set<Path>)

  /** Every entry has a proper name and sits in a directory; no path is both a file and a directory. */
  ghost predicate Shaped(e: Entries) {
    && [] in e.dirs
    && e.files !! e.dirs
    && (forall p :: p in e.files || p in e.dirs ==> ProperPath(p) && Above(p) <= e.dirs)
  }

  ghost predicate WellFormed(t: Tree) {
    Shaped(Entries(t.files.Keys, t.dirs))
  }

  predicate BlockedByFile(t: Tree, p: Path) {
    exists d :: d in Above(p) && d in t.files
  }

  /**
    The directory of a put's temporary file, from the top of the file system: the parent of the destination,
    or the root if the destination has no parent. Trailing dots do not count as a name.
  */
  function TempDir(root: Path, key: Str): Path {
    var dest := root + PathOf(key);
    if dest == [] then root else Parent(dest)
  }

  /** A put keeps its temporary file at or below the root exactly when its key names more than dots. */
  lemma TempDirBelowRootExactly(root: Path, key: Str)
    requires root != []
    ensures root <= TempDir(root, key) <==> !OnlyDots(key)
    ensures root <= TempDir(root, key) ==> TempDir(root, key) == root + Parent(PathOf(key))
  {
    hide PathOf;
    NamesRootExactly(key);
    var p := PathOf(key);
    if p != [] {
      assert Parent(root + p) == root + Parent(p);
    } else {
      assert |TempDir(root, key)| < |root|;
    }
  }

  /** The key `.` is valid and accepted, and its temporary file lies outside the root. */
  lemma DotLeavesRoot(root: Path)
    requires root != []
    ensures ValidKey([DOT]) && Resolve([DOT]).Under? && !(root <= TempDir(root, [DOT]))
  {
    SplitSegment([DOT]);
    TempDirBelowRootExactly(root, [DOT]);
  }

  datatype Node = File(content: seq<byte>) | Dir | Missing | NotADirectory

  /** A final `.` segment asks for a directory. */
  predicate EndsInDot(key: Str) {
    var segments := Split(key);
    segments[|segments| - 1] == [DOT]
  }

  /** What the operating system finds at a key. */
  function Stat(t: Tree, key: Str): Node {
    var p := PathOf(key);
    if BlockedByFile(t, p) then NotADirectory
    else if p in t.files then if EndsInDot(key) then NotADirectory else File(t.files[p])
    else if p in t.dirs then Dir
    else Missing
  }

  datatype Outcome =
    | Stored
    | Data(bytes: seq<byte>)
    | Removed
    | Present(yes: bool)
    | Listed(keys: seq<Str>)
    | NotFound
    | InvalidKey
    | StorageFull
    | IoError
    | Failed

  /** Creating the parents happens before the rename can fail, so a failed put may leave directories behind. */
  function PutTree(t: Tree, limit: Option<nat>, key: Str, data: seq<byte>): (Tree, Outcome) {
    if limit.Some? && |data| > limit.value then (t, StorageFull)
    else if Resolve(key).Rejected? then (t, InvalidKey)
    else
      var p := PathOf(key);
      if BlockedByFile(t, p) then (t, IoError)
      else
        var made := t.(dirs := t.dirs + Above(p));
        if EndsInDot(key) || p in t.dirs then (made, IoError)
        else (made.(files := t.files[p := data]), Stored)
  }

  predicate Admitted(limit: Option<nat>, key: Str, data: seq<byte>) {
    (limit.Some? ==> |data| <= limit.value) && Resolve(key).Under?
  }

  lemma PutNotAdmitted(t: Tree, limit: Option<nat>, key: Str, data: seq<byte>)
    requires !Admitted(limit, key, data)
    ensures PutTree(t, limit, key, data)
         == (t, if limit.Some? && |data| > limit.value then StorageFull else InvalidKey)
  {
  }

  lemma PutStores(t: Tree, limit: Option<nat>, key: Str, data: seq<byte>)
    requires Admitted(limit, key, data)
    requires forall q :: q in Above(PathOf(key)) ==> q !in t.files
    requires !EndsInDot(key) && PathOf(key) !in t.dirs + Above(PathOf(key))
    ensures PutTree(t, limit, key, data) == (Tree(t.files[PathOf(key) := data], t.dirs + Above(PathOf(key))), Stored)
  {
  }

  lemma PutBlocked(t: Tree, limit: Option<nat>, key: Str, data: seq<byte>)
    requires Admitted(limit, key, data)
    requires exists q :: q in Above(PathOf(key)) && q in t.files
    ensures PutTree(t, limit, key, data) == (t, IoError)
  {
  }

  lemma PutRefused(t: Tree, limit: Option<nat>, key: Str, data: seq<byte>)
    requires Admitted(limit, key, data)
    requires forall q :: q in Above(PathOf(key)) ==> q !in t.files
    requires EndsInDot(key) || PathOf(key) in t.dirs + Above(PathOf(key))
    ensures PutTree(t, limit, key, data) == (Tree(t.files, t.dirs + Above(PathOf(key))), IoError)
  {
  }

  function GetTree(t: Tree, key: Str): Outcome {
    if Resolve(key).Rejected? then InvalidKey
    else
      match Stat(t, key)
      case File(content) => Data(content)
      case Dir => IoError
      case NotADirectory => IoError
      case Missing => NotFound
  }

  function DeleteTree(t: Tree, key: Str): (Tree, Outcome) {
    if Resolve(key).Rejected? then (t, InvalidKey)
    else
      match Stat(t, key)
      case File(_) => (t.(files := t.files - {PathOf(key)}), Removed)
      case Dir => (t, IoError)
      case NotADirectory => (t, IoError)
      case Missing => (t, NotFound)
  }

  /** Which keys end in a `.` segment. */
  lemma EndsInDotMeans(key: Str)
    ensures EndsInDot(key) <==> key == [46] || (|key| >= 2 && key[|key| - 2] == 47 && key[|key| - 1] == 46)
  {
    LastSegment(key);
  }

  lemma {:induction false} LastSegment(s: Str)
    ensures Split(s)[|Split(s)| - 1] == [] <==> s == [] || s[|s| - 1] == 47
    ensures Split(s)[|Split(s)| - 1] == [46] <==> s == [46] || (|s| >= 2 && s[|s| - 2] == 47 && s[|s| - 1] == 46)
  {
    if s != [] {
      var t, rest := s[1..], Split(s[1..]);
      LastSegment(t);
      JoinSplit(t);
      assert |rest| == 1 ==> NoSlash(t);
    }
  }

  /** A directory exists too. */
  function ExistsTree(t: Tree, key: Str): Outcome {
    if Resolve(key).Rejected? then InvalidKey
    else
      match Stat(t, key)
      case File(_) => Present(true)
      case Dir => Present(true)
      case NotADirectory => IoError
      case Missing => Present(false)
  }

  /** The relative path of a file, as `list` prints it, belongs to the listing. */
  predicate ListsPath(p: Path, prefix: Str) {
    p != [] && StartsWith(Join(p), prefix) && ValidKey(Join(p))
  }

  /** The flat specification of `list`: every file path that is a valid key and starts with the prefix. */
  ghost function ListedKeys(files: set<Path>, prefix: Str): set<Str> {
    set p | p in files && ListsPath(p, prefix) :: Join(p)
  }

  // ------------------------------------------------------------------------------------------
  // Runs of a path-based store and of the map.

  datatype Request =
    | Put(key: Str, data: seq<byte>)
    | Get(key: Str)
    | Delete(key: Str)
    | Exists(key: Str)
    | List(prefix: Str)

  ghost function TreeStep(t: Tree, r: Request): (Tree, Outcome) {
    match r
    case Put(key, data) => PutTree(t, None, key, data)
    case Get(key) => (t, GetTree(t, key))
    case Delete(key) => DeleteTree(t, key)
    case Exists(key) => (t, ExistsTree(t, key))
    case List(prefix) => (t, Listed(Listing(ListedKeys(t.files.Keys, prefix))))
  }

  type Blobs = map<Str, seq<byte>>

  ghost function KeysUnder(m: Blobs, prefix: Str): set<Str> {
    set k | k in m && StartsWith(k, prefix)
  }

  ghost function MapStep(m: Blobs, r: Request): (Blobs, Outcome) {
    match r
    case Put(key, data) => (m[key := data], Stored)
    case Get(key) => (m, if key in m then Data(m[key]) else NotFound)
    case Delete(key) => if key in m then (m - {key}, Removed) else (m, NotFound)
    case Exists(key) => (m, Present(key in m))
    case List(prefix) => (m, Listed(Listing(KeysUnder(m, prefix))))
  }

  /** The map after a list of requests. */
  ghost function MapAfter(m: Blobs, rs: seq<Request>): Blobs {
    if rs == [] then m
    else MapStep(MapAfter(m, rs[..|rs| - 1]), rs[|rs| - 1]).0
  }

  ghost function RunTree(t: Tree, rs: seq<Request>): seq<Outcome>
    decreases |rs|
  {
    if rs == [] then []
    else
      var (t', o) := TreeStep(t, rs[0]);
      [o] + RunTree(t', rs[1..])
  }

  ghost function RunMap(m: Blobs, rs: seq<Request>): seq<Outcome>
    decreases |rs|
  {
    if rs == [] then []
    else
      var (m', o) := MapStep(m, rs[0]);
      [o] + RunMap(m', rs[1..])
  }
}
