/**
  Any number of clients of the path-based stores, interleaved system call by system call, with crashes.
  A put creates its parents, fills a temporary file, syncs it and renames it; a get opens and then reads,
  either to end of file or by length and bytes through the ring; delete and exists are single calls.
  Directories are never synced, so a crash may undo any directory change, name by name.
*/
module Protocol {
  import opened Bytes
  import opened Keys
  import opened FileModel
  import opened Transfer

  type Ino = nat

  datatype Inode = Inode(content: seq<byte>, synced: bool)

  type Names = map<Path, Ino>

  datatype Stage = Writing | Written | Synced

  datatype Phase =
    | Invoked
    | ParentsMade
    | Holding(stage: Stage, tmp: Path, ino: Ino)
    | Reading(ino: Ino, at: nat, got: seq<byte>)
    | Sizing(ino: Ino, at: nat)
    | Filling(ino: Ino, at: nat, len: nat, moved: map<nat, byte>)

  /** `since` is how many changes the map had seen when the call began. */
  datatype Client = Client(op: Request, phase: Phase, since: nat)

  /** The answer to client `c`, claimed for the moment when the map had seen `at` changes. */
  datatype Response = Response(c: nat, op: Request, outcome: Outcome, since: nat, at: nat, until: nat)

  /** The directory entries at some moment, and how many changes the map had seen then. */
  datatype Version = Version(names: Names, at: nat)

  /**
    `base` and `history` are the map since the last crash; `trail` is every version of the directory since
    then; `puts` is every payload ever offered; `adrift` are inodes that a failed put may still be writing,
    `litter` the temporary files that a failed clean-up or a crash has left behind.
  */
  datatype State = State(
    inodes: map<Ino, Inode>, names: Names, dirs: set<Path>, clients: map<nat, Client>,
    base: Blobs, history: seq<Request>, trail: seq<Version>, responses: seq<Response>,
    puts: set<(Str, seq<byte>)>, adrift: set<Ino>, litter: set<Path>)

  const INIT := State(map[], map[], {[]}, map[], map[], [], [Version(map[], 0)], [], {}, {}, {})

  datatype Action =
    | Invoke(c: nat, op: Request)
    | MakeParents(c: nat)
    | CreateTemp(c: nat, tmp: Path, ino: Ino)
    | WritePiece(c: nat, content: seq<byte>)
    | FinishWriting(c: nat)
    | Sync(c: nat)
    | Publish(c: nat)
    | GiveUp(c: nat, cleaned: bool)
    | Scribble(ino: Ino, content: seq<byte>)
    | Open(c: nat, byRing: bool)
    | ReadPiece(c: nat, n: nat)
    | ReadEnd(c: nat)
    | ReadLength(c: nat)
    | ReadByte(c: nat, j: nat)
    | ReadShort(c: nat, j: nat)
    | ReadFull(c: nat)
    | Unlink(c: nat)
    | Look(c: nat)
    | Miss(c: nat)
    | Obstructed(c: nat)
    | Crash(names: Names, dirs: set<Path>, inodes: map<Ino, Inode>)

  predicate IsTemp(p: Path) {
    p != [] && StartsWith(p[|p| - 1], TEMP_PREFIX)
  }

  function Target(s: State, c: nat): Path
    requires c in s.clients && !s.clients[c].op.List?
  {
    PathOf(s.clients[c].op.key)
  }

  /** A file on the way to the client's key, or a directory in its place. */
  predicate InTheWay(s: State, c: nat)
    requires c in s.clients && !s.clients[c].op.List?
  {
    Target(s, c) in s.dirs || exists d :: d in Above(Target(s, c)) && d in s.names
  }

  predicate At(s: State, c: nat, phase: Phase) {
    c in s.clients && !s.clients[c].op.List? && s.clients[c].phase == phase
  }

  predicate Holds(s: State, c: nat, stage: Stage) {
    && c in s.clients && s.clients[c].op.Put?
    && s.clients[c].phase.Holding? && s.clients[c].phase.stage == stage
    && s.clients[c].phase.ino in s.inodes
  }

  /** What is left of a name after a crash is what it was in some version of the directory. */
  ghost predicate RollsBackTo(trail: seq<Version>, names: Names) {
    && (forall q :: q in names ==> exists i :: 0 <= i < |trail| && q in trail[i].names && trail[i].names[q] == names[q])
    && (forall q :: q !in names ==> exists i :: 0 <= i < |trail| && q !in trail[i].names)
  }

  ghost predicate Enabled(keys: set<Str>, s: State, a: Action) {
    match a
    case Invoke(c, op) => c !in s.clients && !op.List? && op.key in keys
    case MakeParents(c) => At(s, c, Invoked) && s.clients[c].op.Put? && !InTheWay(s, c)
    case CreateTemp(c, tmp, ino) =>
      && At(s, c, ParentsMade) && s.clients[c].op.Put?
      && IsTemp(tmp) && Target(s, c) != [] && Parent(tmp) == Parent(Target(s, c)) && tmp !in s.names && tmp !in s.dirs && ino !in s.inodes
    case WritePiece(c, content) => Holds(s, c, Writing) && WriteFrame([], content, 0, s.clients[c].op.data)
    case FinishWriting(c) => Holds(s, c, Writing) && s.inodes[s.clients[c].phase.ino].content == s.clients[c].op.data
    case Sync(c) => Holds(s, c, Written)
    case Publish(c) => Holds(s, c, Synced) && s.clients[c].phase.tmp in s.names && Target(s, c) !in s.dirs
    case GiveUp(c, _) => c in s.clients
    case Scribble(ino, _) => ino in s.adrift && ino in s.inodes
    case Open(c, _) =>
      At(s, c, Invoked) && s.clients[c].op.Get? && Target(s, c) in s.names && s.names[Target(s, c)] in s.inodes
    case ReadPiece(c, n) =>
      && c in s.clients && s.clients[c].phase.Reading? && s.clients[c].phase.ino in s.inodes
      && 0 < n && |s.clients[c].phase.got| + n <= |s.inodes[s.clients[c].phase.ino].content|
    case ReadEnd(c) =>
      && c in s.clients && s.clients[c].phase.Reading? && s.clients[c].phase.ino in s.inodes
      && |s.inodes[s.clients[c].phase.ino].content| <= |s.clients[c].phase.got|
    case ReadLength(c) => c in s.clients && s.clients[c].phase.Sizing? && s.clients[c].phase.ino in s.inodes
    case ReadByte(c, j) =>
      && c in s.clients && s.clients[c].phase.Filling? && s.clients[c].phase.ino in s.inodes
      && j < s.clients[c].phase.len && j < |s.inodes[s.clients[c].phase.ino].content|
    case ReadShort(c, j) =>
      && c in s.clients && s.clients[c].phase.Filling? && s.clients[c].phase.ino in s.inodes
      && |s.inodes[s.clients[c].phase.ino].content| <= j < s.clients[c].phase.len
    case ReadFull(c) =>
      && c in s.clients && s.clients[c].phase.Filling?
      && forall j: nat :: j < s.clients[c].phase.len ==> j in s.clients[c].phase.moved
    case Unlink(c) => At(s, c, Invoked) && s.clients[c].op.Delete? && Target(s, c) in s.names
    case Look(c) => At(s, c, Invoked) && s.clients[c].op.Exists? && Target(s, c) in s.names
    case Miss(c) =>
      && At(s, c, Invoked) && !s.clients[c].op.Put?
      && Target(s, c) !in s.names && !InTheWay(s, c)
    case Obstructed(c) =>
      && c in s.clients && !s.clients[c].op.List?
      && (s.clients[c].phase.Invoked? || Holds(s, c, Synced))
      && InTheWay(s, c)
    case Crash(names, dirs, inodes) =>
      && RollsBackTo(s.trail, names)
      && [] in dirs && dirs <= s.dirs
      && (forall q :: q in names ==> Above(q) <= dirs)
      && inodes.Keys == s.inodes.Keys
      && forall i :: i in s.inodes && s.inodes[i].synced ==> inodes[i] == s.inodes[i]
  }

  function Advanced(s: State, c: nat, phase: Phase): State
    requires c in s.clients
  {
    s.(clients := s.clients[c := s.clients[c].(phase := phase)])
  }

  /** A directory change: the new version joins the trail. */
  function Renamed(s: State, names: Names): State {
    s.(names := names, trail := s.trail + [Version(names, |s.history|)])
  }

  function Answered(s: State, c: nat, outcome: Outcome, at: nat): State
    requires c in s.clients
  {
    var cl := s.clients[c];
    s.(clients := s.clients - {c},
       responses := s.responses + [Response(c, cl.op, outcome, cl.since, at, |s.history|)])
  }

  /**
    A failed put drops its temporary file, unless that fails too; operations still in flight may go on
    writing the inode.
  */
  function Dropped(s: State, c: nat, cleaned: bool): State
    requires c in s.clients
  {
    match s.clients[c].phase
    case Holding(_, tmp, ino) => 
      if cleaned then Renamed(s.(adrift := s.adrift + {ino}), s.names - {tmp})
      else Renamed(s.(adrift := s.adrift + {ino}, litter := s.litter + {tmp}), s.names)
    case _ => s
  }

  /** The answer when nothing is at the key. */
  function AnswerWhenAbsent(op: Request): Outcome {
    if op.Exists? then Present(false) else NotFound
  }

  function Apply(keys: set<Str>, s: State, a: Action): State
    requires Enabled(keys, s, a)
  {
    match a
    case Invoke(c, op) =>
      s.(clients := s.clients[c := Client(op, Invoked, |s.history|)],
         puts := if op.Put? then s.puts + {(op.key, op.data)} else s.puts)
    case MakeParents(c) => Advanced(s.(dirs := s.dirs + Above(Target(s, c))), c, ParentsMade)
    case CreateTemp(c, tmp, ino) =>
      Advanced(Renamed(s.(inodes := s.inodes[ino := Inode([], false)]), s.names[tmp := ino]), c, Holding(Writing, tmp, ino))
    case WritePiece(c, content) => s.(inodes := s.inodes[s.clients[c].phase.ino := Inode(content, false)])
    case FinishWriting(c) => Advanced(s, c, s.clients[c].phase.(stage := Written))
    case Sync(c) =>
      var ino := s.clients[c].phase.ino;
      Advanced(s.(inodes := s.inodes[ino := s.inodes[ino].(synced := true)]), c, s.clients[c].phase.(stage := Synced))
    case Publish(c) =>
      var tmp := s.clients[c].phase.tmp;
      var changed := s.(history := s.history + [s.clients[c].op]);
      Answered(Renamed(changed, (s.names - {tmp})[Target(s, c) := s.names[tmp]]), c, Stored, |s.history|)
    case GiveUp(c, cleaned) => Answered(Dropped(s, c, cleaned), c, Failed, |s.history|)
    case Scribble(ino, content) => s.(inodes := s.inodes[ino := Inode(content, false)])
    case Open(c, byRing) =>
      var ino := s.names[Target(s, c)];
      Advanced(s, c, if byRing then Sizing(ino, |s.history|) else Reading(ino, |s.history|, []))
    case ReadPiece(c, n) =>
      var p := s.clients[c].phase;
      Advanced(s, c, p.(got := p.got + s.inodes[p.ino].content[|p.got|..|p.got| + n]))
    case ReadEnd(c) => Answered(s, c, Data(s.clients[c].phase.got), s.clients[c].phase.at)
    case ReadLength(c) =>
      var p := s.clients[c].phase;
      Advanced(s, c, Filling(p.ino, p.at, |s.inodes[p.ino].content|, map[]))
    case ReadByte(c, j) =>
      var p := s.clients[c].phase;
      Advanced(s, c, p.(moved := p.moved[j := s.inodes[p.ino].content[j]]))
    case ReadShort(c, _) => Answered(s, c, IoError, s.clients[c].phase.at)
    case ReadFull(c) =>
      var p := s.clients[c].phase;
      Answered(s, c, Data(seq(p.len, j requires 0 <= j < p.len => p.moved[j])), p.at)
    case Unlink(c) =>
      var changed := s.(history := s.history + [s.clients[c].op]);
      Answered(Renamed(changed, s.names - {Target(s, c)}), c, Removed, |s.history|)
    case Look(c) => Answered(s, c, Present(true), |s.history|)
    case Miss(c) => Answered(s, c, AnswerWhenAbsent(s.clients[c].op), |s.history|)
    case Obstructed(c) =>
      var outcome := if s.clients[c].op.Exists? && Target(s, c) in s.dirs then Present(true) else IoError;
      Answered(Dropped(s, c, true), c, outcome, |s.history|)
    case Crash(names, dirs, inodes) =>
      s.(inodes := inodes, names := names, dirs := dirs, clients := map[],
         base := MapOf(keys, names, inodes), history := [], trail := [Version(names, 0)], responses := [], adrift := {},
         litter := set q | q in names && IsTemp(q))
  }

  /** What a key names in a directory. */
  function Slot(names: Names, key: Str): Option<Ino> {
    if PathOf(key) in names then Some(names[PathOf(key)]) else None
  }

  /** The map that a directory stands for: each key with the contents of the inode it names. */
  function MapOf(keys: set<Str>, names: Names, inodes: map<Ino, Inode>): Blobs {
    map k | k in keys && Slot(names, k).Some? && Slot(names, k).value in inodes :: inodes[Slot(names, k).value].content
  }

  ghost function MapAt(s: State, at: nat): Blobs
    requires at <= |s.history|
  {
    MapAfter(s.base, s.history[..at])
  }

  // ------------------------------------------------------------------------------------------
  // The invariant.

  ghost function KeyPaths(keys: set<Str>): set<Path> {
    set k | k in keys :: PathOf(k)
  }

  /** What the canonical prefix-free keys give: distinct paths, none temporary, none above another. */
  ghost predicate GoodKeys(keys: set<Str>) {
    && (forall k :: k in keys ==> PathOf(k) in KeyPaths(keys) && PathOf(k) != [] && !IsTemp(PathOf(k)))
    && (forall a, b :: a in keys && b in keys && PathOf(a) == PathOf(b) ==> a == b)
    && (forall k, d :: k in keys && d in Above(PathOf(k)) ==> d !in KeyPaths(keys) && !IsTemp(d))
  }

  lemma CanonicalKeysAreGood(keys: set<Str>)
    requires CanonicalSet(keys)
    ensures GoodKeys(keys)
  {
    forall k | k in keys
      ensures PathOf(k) == Split(k) && !IsTemp(PathOf(k))
    {
      assert CanonicalKey(k);
      assert Split(k)[|Split(k)| - 1] in Split(k);
    }
    forall a, b | a in keys && b in keys && PathOf(a) == PathOf(b)
      ensures a == b
    {
      PathsAreInjective(a, b);
    }
    forall k, d | k in keys && d in Above(PathOf(k))
      ensures d !in KeyPaths(keys) && !IsTemp(d)
    {
      forall j | j in keys
        ensures PathOf(j) != d
      {
        assert !ProperPrefix(PathOf(j), PathOf(k));
      }
      if d != [] {
        assert d[|d| - 1] == PathOf(k)[|d| - 1] && PathOf(k)[|d| - 1] in Split(k);
      }
    }
  }

  /** A published inode: synced, and in nobody's hands. */
  ghost predicate Fixed(s: State, ino: Ino) {
    && ino in s.inodes && s.inodes[ino].synced && ino !in s.adrift
    && forall c :: c in s.clients && s.clients[c].phase.Holding? ==> s.clients[c].phase.ino != ino
  }

  /** A reader has hold of the payload that its key had when the map had seen `at` changes. */
  ghost predicate ReadsFrom(s: State, cl: Client, ino: Ino, at: nat) {
    && cl.op.Get? && Fixed(s, ino)
    && cl.since <= at <= |s.history|
    && cl.op.key in MapAt(s, at) && MapAt(s, at)[cl.op.key] == s.inodes[ino].content
    && (cl.op.key, s.inodes[ino].content) in s.puts
  }

  ghost predicate HoldsTemp(s: State, cl: Client, stage: Stage, tmp: Path, ino: Ino) {
    && cl.op.Put? && IsTemp(tmp)
    && tmp in s.names && s.names[tmp] == ino
    && ino in s.inodes && ino !in s.adrift
    && (stage != Writing ==> s.inodes[ino].content == cl.op.data)
    && (stage == Synced <==> s.inodes[ino].synced)
  }

  ghost predicate ClientOk(keys: set<Str>, s: State, cl: Client) {
    && !cl.op.List? && cl.op.key in keys && cl.since <= |s.history|
    && (cl.op.Put? ==> (cl.op.key, cl.op.data) in s.puts)
    && match cl.phase
       case Invoked => true
       case ParentsMade => cl.op.Put? && Above(PathOf(cl.op.key)) <= s.dirs
       case Holding(stage, tmp, ino) => HoldsTemp(s, cl, stage, tmp, ino) && Above(PathOf(cl.op.key)) <= s.dirs
       case Reading(ino, at, got) => ReadsFrom(s, cl, ino, at) && got <= s.inodes[ino].content
       case Sizing(ino, at) => ReadsFrom(s, cl, ino, at)
       case Filling(ino, at, len, moved) =>
         && ReadsFrom(s, cl, ino, at) && len == |s.inodes[ino].content|
         && forall j :: j in moved ==> j < len && moved[j] == s.inodes[ino].content[j]
  }

  ghost predicate OwnersApart(s: State) {
    forall c, d :: c in s.clients && d in s.clients && c != d && s.clients[c].phase.Holding? && s.clients[d].phase.Holding? ==>
      s.clients[c].phase.ino != s.clients[d].phase.ino
  }

  /** Every name is a temporary file or a key's path, leads to an inode, and lies in a directory. */
  ghost predicate NamesOk(keys: set<Str>, s: State, names: Names) {
    forall q :: q in names ==> (IsTemp(q) || q in KeyPaths(keys)) && names[q] in s.inodes && Above(q) <= s.dirs
  }

  /** The inode is published and holds a whole payload that some put offered for the key. */
  ghost predicate PublishedWhole(s: State, k: Str, ino: Ino) {
    Fixed(s, ino) && (k, s.inodes[ino].content) in s.puts
  }

  /** A version of the directory: every key names a published inode that holds a whole payload offered for that key. */
  ghost predicate VersionOk(keys: set<Str>, s: State, v: Version) {
    && v.at <= |s.history|
    && NamesOk(keys, s, v.names)
    && (forall k :: k in keys && Slot(v.names, k).Some? ==> PublishedWhole(s, k, Slot(v.names, k).value))
    && MapOf(keys, v.names, s.inodes) == MapAt(s, v.at)
  }

  ghost predicate TrailOk(keys: set<Str>, s: State) {
    && s.trail != []
    && s.trail[|s.trail| - 1] == Version(s.names, |s.history|)
    && (forall i :: 0 <= i < |s.trail| ==> VersionOk(keys, s, s.trail[i]))
    && (forall j: nat :: j <= |s.history| ==> Recorded(s, j))
  }

  /** Some version of the directory dates from when the map had seen `j` changes. */
  ghost predicate Recorded(s: State, j: nat) {
    exists i :: 0 <= i < |s.trail| && s.trail[i].at == j
  }

  predicate Effective(r: Response) {
    r.outcome.Stored? || r.outcome.Removed?
  }

  /**
    The answer is the one the map gives after `at` changes, a moment within the call; if the call changed
    the map, it is change number `at`. Data returned is a whole payload offered for the key. A call that
    failed claims nothing.
  */
  ghost predicate Legal(s: State, r: Response) {
    r.outcome.Failed? ||
    (&& r.since <= r.at <= r.until <= |s.history|
     && r.outcome == MapStep(MapAt(s, r.at), r.op).1
     && (Effective(r) ==> r.at < r.until && s.history[r.at] == r.op)
     && (r.outcome.Data? ==> !r.op.List? && (r.op.key, r.outcome.bytes) in s.puts))
  }

  /** Every answer is legal, and the changes of the map are exactly the calls that report one, each once. */
  ghost predicate Linearized(s: State) {
    && (forall i :: 0 <= i < |s.responses| ==> Legal(s, s.responses[i]))
    && (forall i, j :: 0 <= i < j < |s.responses| && Effective(s.responses[i]) && Effective(s.responses[j]) ==>
          s.responses[i].at != s.responses[j].at)
    && (forall n: nat :: n < |s.history| ==> Accounted(s, n))
  }

  /** Some call reports change number `n`. */
  ghost predicate Accounted(s: State, n: nat) {
    exists i :: 0 <= i < |s.responses| && Effective(s.responses[i]) && s.responses[i].at == n
  }

  ghost predicate Inv(keys: set<Str>, s: State) {
    && (forall c :: c in s.clients ==> ClientOk(keys, s, s.clients[c]))
    && OwnersApart(s)
    && TrailOk(keys, s)
    && [] in s.dirs && (forall d :: d in s.dirs ==> d !in KeyPaths(keys))
    && s.adrift <= s.inodes.Keys
    && Linearized(s)
  }

  // ------------------------------------------------------------------------------------------
  // What steps other than a crash leave alone.

  /** Published inodes keep their contents and stay published; the map's past does not change. */
  ghost predicate Extends(s: State, t: State) {
    && t.base == s.base && s.history <= t.history && s.puts <= t.puts && s.dirs <= t.dirs
    && s.inodes.Keys <= t.inodes.Keys
    && forall i :: Fixed(s, i) ==> Fixed(t, i) && t.inodes[i] == s.inodes[i]
  }

  lemma MapAtStays(s: State, t: State, at: nat)
    requires at <= |s.history| && t.base == s.base && s.history <= t.history
    ensures MapAt(t, at) == MapAt(s, at)
  {
    assert t.history[..at] == s.history[..at];
  }

  lemma MapOfSame(keys: set<Str>, names: Names, names': Names, inodes: map<Ino, Inode>, inodes': map<Ino, Inode>)
    requires forall k :: k in keys ==> Slot(names', k) == Slot(names, k)
    requires forall k :: k in keys && Slot(names, k).Some? ==>
               && Slot(names, k).value in inodes && Slot(names, k).value in inodes'
               && inodes'[Slot(names, k).value] == inodes[Slot(names, k).value]
    ensures MapOf(keys, names', inodes') == MapOf(keys, names, inodes)
  {
    hide Slot;
    var a, b := MapOf(keys, names', inodes'), MapOf(keys, names, inodes);
    assert a.Keys == b.Keys;
    assert forall k :: k in a ==> a[k] == b[k];
  }

  lemma VersionStays(keys: set<Str>, s: State, t: State, v: Version)
    requires Extends(s, t) && VersionOk(keys, s, v)
    ensures VersionOk(keys, t, v)
  {
    hide PathOf, Slot, MapAfter, IsTemp, MapOf;
    MapOfSame(keys, v.names, v.names, s.inodes, t.inodes);
    MapAtStays(s, t, v.at);
  }

  lemma LegalStays(s: State, t: State, r: Response)
    requires t.base == s.base && s.history <= t.history && s.puts <= t.puts && Legal(s, r)
    ensures Legal(t, r)
  {
    if !r.outcome.Failed? {
      MapAtStays(s, t, r.at);
    }
  }

  lemma ReaderStays(keys: set<Str>, s: State, t: State, cl: Client)
    requires Extends(s, t) && ClientOk(keys, s, cl) && !cl.phase.Holding?
    ensures ClientOk(keys, t, cl)
  {
    hide Fixed, MapAfter;
    if cl.phase.Reading? || cl.phase.Sizing? || cl.phase.Filling? {
      MapAtStays(s, t, cl.phase.at);
    }
  }

  lemma HolderStays(keys: set<Str>, s: State, t: State, cl: Client)
    requires Extends(s, t) && ClientOk(keys, s, cl) && cl.phase.Holding?
    requires cl.phase.tmp in t.names && t.names[cl.phase.tmp] == cl.phase.ino
    requires t.inodes[cl.phase.ino] == s.inodes[cl.phase.ino] && cl.phase.ino !in t.adrift
    ensures ClientOk(keys, t, cl)
  {
    hide Fixed, MapAfter, IsTemp;
  }

  // ------------------------------------------------------------------------------------------
  // One part of the invariant at a time.

  ghost predicate Kept(s: State, t: State, d: nat) {
    && d in s.clients && d in t.clients && t.clients[d] == s.clients[d]
    && (s.clients[d].phase.Holding? ==>
          var tmp, ino := s.clients[d].phase.tmp, s.clients[d].phase.ino;
          && tmp in s.names && tmp in t.names && t.names[tmp] == s.names[tmp]
          && ino in s.inodes && ino in t.inodes && t.inodes[ino] == s.inodes[ino]
          && ino !in t.adrift)
  }

  ghost predicate OthersKept(s: State, t: State, moved: set<nat>) {
    forall d :: d in t.clients && d !in moved ==> Kept(s, t, d)
  }

  lemma OthersStay(keys: set<Str>, s: State, t: State, moved: set<nat>)
    requires Inv(keys, s) && Extends(s, t) && OthersKept(s, t, moved)
    ensures forall d :: d in t.clients && d !in moved ==> ClientOk(keys, t, t.clients[d])
  {
    hide ClientOk, Extends, OwnersApart, TrailOk, Linearized, HoldsTemp;
    forall d | d in t.clients && d !in moved
      ensures ClientOk(keys, t, t.clients[d])
    {
      assert Kept(s, t, d);
      KeptStays(keys, s, t, d);
    }
  }

  lemma KeptStays(keys: set<Str>, s: State, t: State, d: nat)
    requires Extends(s, t) && Kept(s, t, d) && ClientOk(keys, s, s.clients[d])
    ensures ClientOk(keys, t, t.clients[d])
  {
    hide Fixed, ReadsFrom, MapAfter, IsTemp;
    if s.clients[d].phase.Holding? {
      HolderStays(keys, s, t, s.clients[d]);
    } else {
      ReaderStays(keys, s, t, s.clients[d]);
    }
  }

  ghost predicate TrailSame(s: State, t: State) {
    t.trail == s.trail && t.names == s.names && |t.history| == |s.history|
  }

  ghost predicate TrailGrown(keys: set<Str>, s: State, t: State) {
    && t.trail == s.trail + [Version(t.names, |t.history|)]
    && VersionOk(keys, t, Version(t.names, |t.history|))
    && |t.history| <= |s.history| + 1
  }

  lemma TrailStays(keys: set<Str>, s: State, t: State)
    requires TrailOk(keys, s) && Extends(s, t)
    requires TrailSame(s, t) || TrailGrown(keys, s, t)
    ensures TrailOk(keys, t)
  {
    hide VersionOk;
    forall i | 0 <= i < |t.trail|
      ensures VersionOk(keys, t, t.trail[i])
    {
      if i < |s.trail| {
        VersionStays(keys, s, t, s.trail[i]);
      }
    }
    forall j: nat | j <= |t.history|
      ensures Recorded(t, j)
    {
      if j <= |s.history| {
        assert Recorded(s, j);
        var i :| 0 <= i < |s.trail| && s.trail[i].at == j;
        assert t.trail[i].at == j;
      } else {
        assert t.trail[|t.trail| - 1].at == j;
      }
    }
  }

  lemma DirsStay(s: State, t: State)
    requires Extends(s, t)
    ensures s.dirs <= t.dirs
  {
  }

  lemma Assemble(keys: set<Str>, s: State, t: State, moved: set<nat>)
    requires Inv(keys, s) && Extends(s, t)
    requires OthersKept(s, t, moved)
    requires forall d :: d in moved && d in t.clients ==> ClientOk(keys, t, t.clients[d])
    requires OwnersApart(t)
    requires TrailSame(s, t) || TrailGrown(keys, s, t)
    requires forall d :: d in t.dirs ==> d !in KeyPaths(keys)
    requires t.adrift <= t.inodes.Keys
    requires Linearized(t)
    ensures Inv(keys, t)
  {
    hide ClientOk, Extends, OthersKept, OwnersApart, TrailSame, TrailGrown, TrailOk, Linearized, KeyPaths;
    OthersStay(keys, s, t, moved);
    TrailStays(keys, s, t);
    DirsStay(s, t);
  }

  ghost predicate Advances(s: State, t: State) {
    t.base == s.base && s.history <= t.history && s.puts <= t.puts
  }

  /** Nothing answered, nothing changed; or an answer that reports no change. */
  lemma AnswersStay(s: State, t: State)
    requires Linearized(s) && Advances(s, t) && |t.history| == |s.history|
    requires t.responses == s.responses
          || (t.responses != [] && t.responses[..|t.responses| - 1] == s.responses
              && Legal(t, t.responses[|t.responses| - 1]) && !Effective(t.responses[|t.responses| - 1]))
    ensures Linearized(t)
  {
    hide Legal, MapStep;
    forall i | 0 <= i < |t.responses|
      ensures Legal(t, t.responses[i])
    {
      if i < |s.responses| {
        assert t.responses[i] == s.responses[i];
        LegalStays(s, t, s.responses[i]);
      }
    }
    forall n: nat | n < |t.history|
      ensures Accounted(t, n)
    {
      assert Accounted(s, n);
      var i :| 0 <= i < |s.responses| && Effective(s.responses[i]) && s.responses[i].at == n;
      assert t.responses[i] == s.responses[i];
    }
    assert forall i :: 0 <= i < |s.responses| ==> t.responses[i] == s.responses[i];
  }

  /** A change, and the answer that reports it. */
  lemma ChangeAnswered(s: State, t: State, r: Response)
    requires Linearized(s) && Advances(s, t) && t.history == s.history + [r.op]
    requires t.responses == s.responses + [r] && Effective(r) && r.at == |s.history| && Legal(t, r)
    ensures Linearized(t)
  {
    forall i | 0 <= i < |s.responses|
      ensures Legal(t, s.responses[i]) && (Effective(s.responses[i]) ==> s.responses[i].at < |s.history|)
    {
      LegalStays(s, t, s.responses[i]);
    }
    forall n: nat | n < |t.history|
      ensures Accounted(t, n)
    {
      if n < |s.history| {
        assert Accounted(s, n);
        var i :| 0 <= i < |s.responses| && Effective(s.responses[i]) && s.responses[i].at == n;
        assert t.responses[i] == s.responses[i];
      } else {
        assert t.responses[|s.responses|] == r;
      }
    }
  }

  lemma MapAfterChange(s: State, t: State, op: Request)
    requires t.base == s.base && t.history == s.history + [op]
    ensures MapAt(t, |t.history|) == MapStep(MapAt(s, |s.history|), op).0
  {
    assert t.history[..|t.history|] == t.history && s.history[..|s.history|] == s.history;
    assert t.history[..|t.history| - 1] == s.history;
  }
}
