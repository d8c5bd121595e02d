/**
  What every step of the protocol keeps, whichever clients it interleaves. Modules Protocol and Reachable hold
  the definitions and the results.
*/
module Interleavings {
  import opened Bytes
  import opened Keys
  import opened FileModel
  import opened Protocol

  // ------------------------------------------------------------------------------------------
  // Reading the invariant.

  lemma NowOk(keys: set<Str>, s: State)
    requires Inv(keys, s)
    ensures VersionOk(keys, s, Version(s.names, |s.history|))
  {
    hide VersionOk;
  }

  /** Over good keys no file is ever above a key, and no directory at one. */
  lemma NothingInTheWay(keys: set<Str>, s: State, c: nat)
    requires GoodKeys(keys) && Inv(keys, s) && c in s.clients
    ensures !s.clients[c].op.List? && !InTheWay(s, c)
  {
    hide MapAt, MapOf, PathOf, Linearized, OwnersApart, IsTemp, PublishedWhole;
    NowOk(keys, s);
    assert ClientOk(keys, s, s.clients[c]);
    assert PathOf(s.clients[c].op.key) in KeyPaths(keys);
  }

  /** What a key names now is published, and the map has its contents; a key that names nothing is not in the map. */
  lemma SlotNow(keys: set<Str>, s: State, k: Str)
    requires Inv(keys, s) && k in keys
    ensures Slot(s.names, k).Some? ==>
              && PublishedWhole(s, k, Slot(s.names, k).value)
              && k in MapAt(s, |s.history|)
              && MapAt(s, |s.history|)[k] == s.inodes[Slot(s.names, k).value].content
    ensures Slot(s.names, k).None? ==> k !in MapAt(s, |s.history|)
  {
    hide MapAt, PathOf, Slot, NamesOk, Inv;
    NowOk(keys, s);
    if Slot(s.names, k).Some? {
      assert PublishedWhole(s, k, Slot(s.names, k).value);
    }
  }

  // ------------------------------------------------------------------------------------------
  // A client moves on by itself.

  /** The phase of one client, the directories and the offered payloads may change; no file does. */
  ghost predicate MovesOn(s: State, t: State, c: nat) {
    && c in t.clients
    && t == s.(clients := s.clients[c := t.clients[c]], dirs := t.dirs, puts := t.puts)
    && s.puts <= t.puts && s.dirs <= t.dirs
    && (t.clients[c].phase.Holding? ==>
          c in s.clients && s.clients[c].phase.Holding? && s.clients[c].phase.ino == t.clients[c].phase.ino)
  }

  lemma MovesOnExtends(s: State, t: State, c: nat)
    requires MovesOn(s, t, c)
    ensures Extends(s, t)
  {
  }

  lemma MovesOnKeeps(keys: set<Str>, s: State, t: State, c: nat)
    requires Inv(keys, s) && MovesOn(s, t, c)
    requires ClientOk(keys, t, t.clients[c])
    requires forall d :: d in t.dirs ==> d !in KeyPaths(keys)
    ensures Inv(keys, t) && Extends(s, t)
  {
    hide Fixed, VersionOk, KeyPaths, Legal, Linearized, TrailOk, ReadsFrom, IsTemp;
    MovesOnExtends(s, t, c);
    AnswersStay(s, t);
    forall d | d in t.clients && d != c
      ensures Kept(s, t, d)
    {
      assert ClientOk(keys, s, s.clients[d]);
    }
    Assemble(keys, s, t, {c});
  }

  lemma InvokeKeeps(keys: set<Str>, s: State, a: Action)
    requires Inv(keys, s) && a.Invoke? && Enabled(keys, s, a)
    ensures Inv(keys, Apply(keys, s, a)) && Extends(s, Apply(keys, s, a))
  {
    hide Inv, MapAt, KeyPaths, Fixed;
    assert forall d :: d in s.dirs ==> d !in KeyPaths(keys) by { DirsApart(keys, s); }
    MovesOnKeeps(keys, s, Apply(keys, s, a), a.c);
  }

  lemma DirsApart(keys: set<Str>, s: State)
    requires Inv(keys, s)
    ensures forall d :: d in s.dirs ==> d !in KeyPaths(keys)
  {
  }

  lemma ClientNow(keys: set<Str>, s: State, c: nat)
    requires Inv(keys, s) && c in s.clients
    ensures ClientOk(keys, s, s.clients[c])
  {
    hide ClientOk;
  }

  lemma MakeParentsKeeps(keys: set<Str>, s: State, a: Action)
    requires GoodKeys(keys) && Inv(keys, s) && a.MakeParents? && Enabled(keys, s, a)
    ensures Inv(keys, Apply(keys, s, a)) && Extends(s, Apply(keys, s, a))
  {
    hide Inv, MapAt, KeyPaths, Fixed, PathOf, Above, InTheWay;
    DirsApart(keys, s);
    ClientNow(keys, s, a.c);
    MovesOnKeeps(keys, s, Apply(keys, s, a), a.c);
  }

  lemma FinishWritingKeeps(keys: set<Str>, s: State, a: Action)
    requires Inv(keys, s) && a.FinishWriting? && Enabled(keys, s, a)
    ensures Inv(keys, Apply(keys, s, a)) && Extends(s, Apply(keys, s, a))
  {
    hide Inv, MapAt, KeyPaths, Fixed, IsTemp;
    DirsApart(keys, s);
    ClientNow(keys, s, a.c);
    MovesOnKeeps(keys, s, Apply(keys, s, a), a.c);
  }

  lemma OpenKeeps(keys: set<Str>, s: State, a: Action)
    requires Inv(keys, s) && a.Open? && Enabled(keys, s, a)
    ensures Inv(keys, Apply(keys, s, a)) && Extends(s, Apply(keys, s, a))
  {
    hide Inv, MapAt, KeyPaths, Fixed, PathOf;
    DirsApart(keys, s);
    ClientNow(keys, s, a.c);
    SlotNow(keys, s, s.clients[a.c].op.key);
    var t := Apply(keys, s, a);
    MovesOnExtends(s, t, a.c);
    MapAtStays(s, t, |s.history|);
    MovesOnKeeps(keys, s, t, a.c);
  }

  /** A reader takes in more of the file it has open. */
  lemma ReadingKeeps(keys: set<Str>, s: State, a: Action)
    requires Inv(keys, s) && Enabled(keys, s, a)
    requires a.ReadPiece? || a.ReadLength? || a.ReadByte?
    ensures Inv(keys, Apply(keys, s, a)) && Extends(s, Apply(keys, s, a))
  {
    hide Inv, MapAt, KeyPaths, Fixed, PathOf;
    DirsApart(keys, s);
    ClientNow(keys, s, a.c);
    var t := Apply(keys, s, a);
    MovesOnExtends(s, t, a.c);
    MapAtStays(s, t, s.clients[a.c].phase.at);
    MovesOnKeeps(keys, s, t, a.c);
  }

  // ------------------------------------------------------------------------------------------
  // A file that is not published changes.

  ghost predicate FileChanges(s: State, t: State, ino: Ino, moved: set<nat>) {
    && ino in s.inodes && ino in t.inodes
    && t == s.(inodes := s.inodes[ino := t.inodes[ino]], clients := t.clients)
    && t.clients.Keys == s.clients.Keys
    && (forall c :: c in s.clients && c !in moved ==> t.clients[c] == s.clients[c])
    && (forall c :: c in s.clients && c in moved ==>
          s.clients[c].phase.Holding? && t.clients[c].phase.Holding? && s.clients[c].phase.ino == t.clients[c].phase.ino == ino)
    && !Fixed(s, ino)
    && forall c :: c in s.clients && s.clients[c].phase.Holding? && s.clients[c].phase.ino == ino ==> c in moved
  }

  lemma FileChangesExtends(s: State, t: State, ino: Ino, moved: set<nat>)
    requires FileChanges(s, t, ino, moved)
    ensures Extends(s, t)
  {
  }

  lemma FileChangesKeeps(keys: set<Str>, s: State, t: State, ino: Ino, moved: set<nat>)
    requires Inv(keys, s) && FileChanges(s, t, ino, moved)
    requires forall c :: c in moved && c in t.clients ==> ClientOk(keys, t, t.clients[c])
    ensures Inv(keys, t) && Extends(s, t)
  {
    hide Fixed, VersionOk, KeyPaths, Legal, Linearized, TrailOk, ReadsFrom, IsTemp;
    FileChangesExtends(s, t, ino, moved);
    AnswersStay(s, t);
    forall d | d in t.clients && d !in moved
      ensures Kept(s, t, d)
    {
      assert ClientOk(keys, s, s.clients[d]);
    }
    Assemble(keys, s, t, moved);
  }

  lemma HolderAlone(keys: set<Str>, s: State, c: nat)
    requires Inv(keys, s) && c in s.clients && s.clients[c].phase.Holding?
    ensures !Fixed(s, s.clients[c].phase.ino) && s.clients[c].phase.ino !in s.adrift
    ensures forall d :: d in s.clients && s.clients[d].phase.Holding? && s.clients[d].phase.ino == s.clients[c].phase.ino ==> d == c
  {
    hide MapAt, KeyPaths, IsTemp, TrailOk, Linearized;
    assert ClientOk(keys, s, s.clients[c]);
  }

  lemma WritingKeeps(keys: set<Str>, s: State, a: Action)
    requires Inv(keys, s) && (a.WritePiece? || a.Sync?) && Enabled(keys, s, a)
    ensures Inv(keys, Apply(keys, s, a)) && Extends(s, Apply(keys, s, a))
  {
    hide Inv, MapAt, KeyPaths, Fixed, IsTemp;
    ClientNow(keys, s, a.c);
    HolderAlone(keys, s, a.c);
    FileChangesKeeps(keys, s, Apply(keys, s, a), s.clients[a.c].phase.ino, {a.c});
  }

  lemma AdriftAlone(keys: set<Str>, s: State, ino: Ino)
    requires Inv(keys, s) && ino in s.adrift
    ensures !Fixed(s, ino)
    ensures forall d :: d in s.clients && s.clients[d].phase.Holding? ==> s.clients[d].phase.ino != ino
  {
    hide MapAt, KeyPaths, IsTemp, TrailOk, Linearized, OwnersApart;
    forall d | d in s.clients && s.clients[d].phase.Holding?
      ensures s.clients[d].phase.ino != ino
    {
      assert ClientOk(keys, s, s.clients[d]);
    }
  }

  lemma ScribbleKeeps(keys: set<Str>, s: State, a: Action)
    requires Inv(keys, s) && a.Scribble? && Enabled(keys, s, a)
    ensures Inv(keys, Apply(keys, s, a)) && Extends(s, Apply(keys, s, a))
  {
    hide Inv, MapAt, KeyPaths, Fixed, IsTemp;
    AdriftAlone(keys, s, a.ino);
    FileChangesKeeps(keys, s, Apply(keys, s, a), a.ino, {});
  }

  // ------------------------------------------------------------------------------------------
  // Directory changes that concern temporary files only.

  lemma KeyIsNotTemp(keys: set<Str>, k: Str)
    requires GoodKeys(keys) && k in keys
    ensures !IsTemp(PathOf(k)) && PathOf(k) in KeyPaths(keys)
  {
  }

  /** Names of temporary files come and go without the map noticing. */
  lemma TempsUnnoticed(keys: set<Str>, s: State, t: State)
    requires GoodKeys(keys) && Inv(keys, s) && Extends(s, t) && |t.history| == |s.history|
    requires forall q :: !IsTemp(q) ==> (q in t.names <==> q in s.names)
    requires forall q :: q in t.names && q in s.names ==> t.names[q] == s.names[q]
    requires forall q :: q in t.names && q !in s.names ==> t.names[q] in t.inodes && Above(q) <= t.dirs
    ensures VersionOk(keys, t, Version(t.names, |t.history|))
  {
    hide IsTemp, PathOf, Fixed, MapAfter, MapOf, Inv;
    NowOk(keys, s);
    VersionStays(keys, s, t, Version(s.names, |s.history|));
    forall k | k in keys
      ensures Slot(t.names, k) == Slot(s.names, k)
    {
      KeyIsNotTemp(keys, k);
    }
    SlotsLive(keys, t, s.names);
    MapOfSame(keys, s.names, t.names, t.inodes, t.inodes);
  }

  lemma SlotsLive(keys: set<Str>, s: State, names: Names)
    requires NamesOk(keys, s, names)
    ensures forall k :: k in keys && Slot(names, k).Some? ==> Slot(names, k).value in s.inodes
  {
    hide PathOf, IsTemp;
  }

  /** A put that has a temporary file has it to itself. */
  lemma HoldersHaveFiles(keys: set<Str>, s: State)
    requires Inv(keys, s)
    ensures s.adrift <= s.inodes.Keys
    ensures forall d :: d in s.clients && s.clients[d].phase.Holding? ==>
              && IsTemp(s.clients[d].phase.tmp)
              && s.clients[d].phase.tmp in s.names && s.names[s.clients[d].phase.tmp] == s.clients[d].phase.ino
              && s.clients[d].phase.ino in s.inodes && s.clients[d].phase.ino !in s.adrift
  {
    hide MapAt, KeyPaths, IsTemp, TrailOk, Linearized, OwnersApart, Fixed;
    forall d | d in s.clients && s.clients[d].phase.Holding?
      ensures HoldsTemp(s, s.clients[d], s.clients[d].phase.stage, s.clients[d].phase.tmp, s.clients[d].phase.ino)
    {
      assert ClientOk(keys, s, s.clients[d]);
    }
  }

  lemma CreateTempExtends(keys: set<Str>, s: State, a: Action)
    requires a.CreateTemp? && Enabled(keys, s, a)
    ensures Extends(s, Apply(keys, s, a))
  {
    hide IsTemp, PathOf;
  }

  lemma OwnersAreApart(keys: set<Str>, s: State)
    requires Inv(keys, s)
    ensures OwnersApart(s) && Linearized(s)
  {
    hide OwnersApart, Linearized;
  }

  lemma CreateTempKeeps(keys: set<Str>, s: State, a: Action)
    requires GoodKeys(keys) && Inv(keys, s) && a.CreateTemp? && Enabled(keys, s, a)
    ensures Inv(keys, Apply(keys, s, a)) && Extends(s, Apply(keys, s, a))
  {
    hide Inv, MapAt, KeyPaths, Fixed, IsTemp, PathOf, VersionOk, Linearized, Extends, GoodKeys;
    var t := Apply(keys, s, a);
    DirsApart(keys, s);
    HoldersHaveFiles(keys, s);
    OwnersAreApart(keys, s);
    ClientNow(keys, s, a.c);
    CreateTempExtends(keys, s, a);
    SiblingsShareDirectories(a.tmp, Target(s, a.c));
    AnswersStay(s, t);
    TempsUnnoticed(keys, s, t);
    Assemble(keys, s, t, {a.c});
  }

  lemma SiblingsShareDirectories(p: Path, q: Path)
    requires p != [] && q != [] && Parent(p) == Parent(q)
    ensures Above(p) == Above(q)
  {
    AboveChild(Parent(p), p[|p| - 1]);
    AboveChild(Parent(q), q[|q| - 1]);
    assert p == Parent(p) + [p[|p| - 1]] && q == Parent(q) + [q[|q| - 1]];
  }

  // ------------------------------------------------------------------------------------------
  // A put fails.

  ghost predicate Leaves(s: State, t: State, c: nat) {
    && c in s.clients && t.clients == s.clients - {c}
    && t.inodes == s.inodes && t.dirs == s.dirs && t.base == s.base && t.puts == s.puts
    && s.adrift <= t.adrift
    && forall ino :: ino in t.adrift && ino !in s.adrift ==> s.clients[c].phase.Holding? && s.clients[c].phase.ino == ino
  }

  lemma LeavesExtends(s: State, t: State, c: nat)
    requires Leaves(s, t, c) && s.history <= t.history
    ensures Extends(s, t)
  {
  }

  /** When a client leaves, the others keep their temporary files. */
  lemma LeavesKeepsOthers(keys: set<Str>, s: State, t: State, c: nat)
    requires Inv(keys, s) && Leaves(s, t, c)
    requires forall q :: q in s.names && IsTemp(q) && !(s.clients[c].phase.Holding? && s.clients[c].phase.tmp == q) ==>
               q in t.names && t.names[q] == s.names[q]
    ensures OthersKept(s, t, {c}) && OwnersApart(t)
  {
    hide Inv, IsTemp;
    HoldersHaveFiles(keys, s);
    OwnersAreApart(keys, s);
  }

  lemma GiveUpKeeps(keys: set<Str>, s: State, a: Action)
    requires GoodKeys(keys) && Inv(keys, s) && a.GiveUp? && Enabled(keys, s, a)
    ensures Inv(keys, Apply(keys, s, a)) && Extends(s, Apply(keys, s, a))
    ensures MapAt(Apply(keys, s, a), |s.history|) == MapAt(s, |s.history|)
  {
    hide Inv, MapAt, KeyPaths, Fixed, IsTemp, PathOf, VersionOk, Linearized, Extends, GoodKeys;
    var t := Apply(keys, s, a);
    DirsApart(keys, s);
    HoldersHaveFiles(keys, s);
    OwnersAreApart(keys, s);
    LeavesExtends(s, t, a.c);
    LeavesKeepsOthers(keys, s, t, a.c);
    AnswersStay(s, t);
    TempsUnnoticed(keys, s, t);
    MapAtStays(s, t, |s.history|);
    Assemble(keys, s, t, {a.c});
  }

  // ------------------------------------------------------------------------------------------
  // An answer that changes nothing.

  lemma AnswerKeeps(keys: set<Str>, s: State, c: nat, outcome: Outcome, at: nat)
    requires Inv(keys, s) && c in s.clients && !s.clients[c].phase.Holding?
    requires !outcome.Stored? && !outcome.Removed?
    requires var cl := s.clients[c]; Legal(s, Response(c, cl.op, outcome, cl.since, at, |s.history|))
    ensures Inv(keys, Answered(s, c, outcome, at)) && Extends(s, Answered(s, c, outcome, at))
  {
    hide Inv, MapAt, KeyPaths, Fixed, IsTemp, PathOf, VersionOk, Linearized, Extends, MapStep;
    var t := Answered(s, c, outcome, at);
    DirsApart(keys, s);
    HoldersHaveFiles(keys, s);
    OwnersAreApart(keys, s);
    LeavesExtends(s, t, c);
    LeavesKeepsOthers(keys, s, t, c);
    LegalStays(s, t, t.responses[|s.responses|]);
    AnswersStay(s, t);
    Assemble(keys, s, t, {c});
  }

  /** A reader that has reached the end of its file, or has filled its buffer, has the whole payload. */
  lemma ReadAnswerKeeps(keys: set<Str>, s: State, a: Action)
    requires Inv(keys, s) && (a.ReadEnd? || a.ReadFull?) && Enabled(keys, s, a)
    ensures Inv(keys, Apply(keys, s, a)) && Extends(s, Apply(keys, s, a))
  {
    hide Inv, MapAt, Extends;
    ClientNow(keys, s, a.c);
    var p := s.clients[a.c].phase;
    var content := s.inodes[p.ino].content;
    if a.ReadEnd? {
      assert p.got == content;
    } else {
      assert seq(p.len, j requires 0 <= j < p.len => p.moved[j]) == content;
    }
    AnswerKeeps(keys, s, a.c, Data(content), p.at);
  }

  lemma LookKeeps(keys: set<Str>, s: State, a: Action)
    requires Inv(keys, s) && (a.Look? || a.Miss?) && Enabled(keys, s, a)
    ensures Inv(keys, Apply(keys, s, a)) && Extends(s, Apply(keys, s, a))
  {
    hide Inv, MapAt, Fixed, Extends, PathOf, PublishedWhole, InTheWay;
    ClientNow(keys, s, a.c);
    SlotNow(keys, s, s.clients[a.c].op.key);
    var outcome := if a.Look? then Present(true) else AnswerWhenAbsent(s.clients[a.c].op);
    AnswerKeeps(keys, s, a.c, outcome, |s.history|);
  }

  lemma NeverObstructed(keys: set<Str>, s: State, a: Action)
    requires GoodKeys(keys) && Inv(keys, s) && (a.Obstructed? || a.ReadShort?)
    ensures !Enabled(keys, s, a)
  {
    hide Inv, MapAt, Fixed, PathOf, InTheWay;
    if a.c in s.clients {
      ClientNow(keys, s, a.c);
      NothingInTheWay(keys, s, a.c);
    }
  }

  // ------------------------------------------------------------------------------------------
  // The map changes: a rename, and an unlink.

  /** In a good key set a change at one key's path leaves what the other keys name. */
  lemma SlotsAfter(keys: set<Str>, names: Names, names': Names, key: Str, k: Str)
    requires GoodKeys(keys) && key in keys && k in keys
    requires forall q :: q != PathOf(key) && !IsTemp(q) ==> (q in names' <==> q in names)
    requires forall q :: q != PathOf(key) && q in names' && q in names ==> names'[q] == names[q]
    ensures k != key ==> Slot(names', k) == Slot(names, k)
    ensures k == key ==> Slot(names', k) == if PathOf(key) in names' then Some(names'[PathOf(key)]) else None
  {
    hide PathOf, IsTemp;
    KeyIsNotTemp(keys, k);
  }

  /** The directory and the map change together. */
  lemma ChangedTogether(keys: set<Str>, s: State, t: State, op: Request)
    requires GoodKeys(keys) && Inv(keys, s) && Extends(s, t)
    requires !op.List? && op.key in keys && t.history == s.history + [op]
    requires NamesOk(keys, t, t.names)
    requires forall q :: q != PathOf(op.key) && !IsTemp(q) ==> (q in t.names <==> q in s.names)
    requires forall q :: q != PathOf(op.key) && q in t.names && q in s.names ==> t.names[q] == s.names[q]
    requires op.Put? ==>
               && PathOf(op.key) in t.names && PublishedWhole(t, op.key, t.names[PathOf(op.key)])
               && t.inodes[t.names[PathOf(op.key)]].content == op.data
    requires !op.Put? ==> op.Delete? && PathOf(op.key) in s.names && PathOf(op.key) !in t.names
    ensures VersionOk(keys, t, Version(t.names, |t.history|))
  {
    hide IsTemp, PathOf, Fixed, MapAfter, MapAt, Inv, NamesOk, GoodKeys;
    NowOk(keys, s);
    MapAtStays(s, t, |s.history|);
    VersionStays(keys, s, t, Version(s.names, |s.history|));
    forall k | k in keys
      ensures k != op.key ==> Slot(t.names, k) == Slot(s.names, k)
      ensures k == op.key ==> Slot(t.names, k) == if PathOf(op.key) in t.names then Some(t.names[PathOf(op.key)]) else None
    {
      SlotsAfter(keys, s.names, t.names, op.key, k);
    }
    MapAfterChange(s, t, op);
    SlotsLive(keys, t, t.names);
    SlotsLive(keys, t, s.names);
    MapsDiffer(keys, s.names, t.names, t.inodes, op);
  }

  lemma MapsDiffer(keys: set<Str>, names: Names, names': Names, inodes: map<Ino, Inode>, op: Request)
    requires (op.Put? || op.Delete?) && op.key in keys
    requires forall k :: k in keys && k != op.key ==> Slot(names', k) == Slot(names, k)
    requires forall k :: k in keys && Slot(names, k).Some? ==> Slot(names, k).value in inodes
    requires op.Put? ==>
               && Slot(names', op.key).Some? && Slot(names', op.key).value in inodes
               && inodes[Slot(names', op.key).value].content == op.data
    requires op.Delete? ==> Slot(names', op.key).None? && Slot(names, op.key).Some?
    ensures MapOf(keys, names', inodes) == MapStep(MapOf(keys, names, inodes), op).0
  {
    hide Slot;
    var a, b := MapOf(keys, names', inodes), MapStep(MapOf(keys, names, inodes), op).0;
    assert a.Keys == b.Keys;
    assert forall k :: k in a ==> a[k] == b[k];
  }

  lemma UnlinkKeeps(keys: set<Str>, s: State, a: Action)
    requires GoodKeys(keys) && Inv(keys, s) && a.Unlink? && Enabled(keys, s, a)
    ensures Inv(keys, Apply(keys, s, a)) && Extends(s, Apply(keys, s, a))
  {
    hide Inv, MapAt, KeyPaths, Fixed, IsTemp, PathOf, VersionOk, Linearized, Extends, GoodKeys, PublishedWhole;
    var t := Apply(keys, s, a);
    var op := s.clients[a.c].op;
    ClientNow(keys, s, a.c);
    DirsApart(keys, s);
    HoldersHaveFiles(keys, s);
    OwnersAreApart(keys, s);
    KeyIsNotTemp(keys, op.key);
    SlotNow(keys, s, op.key);
    LeavesExtends(s, t, a.c);
    LeavesKeepsOthers(keys, s, t, a.c);
    MapAtStays(s, t, |s.history|);
    ChangeAnswered(s, t, t.responses[|s.responses|]);
    NamesStay(keys, s, t);
    ChangedTogether(keys, s, t, op);
    Assemble(keys, s, t, {a.c});
  }

  lemma NamesStay(keys: set<Str>, s: State, t: State)
    requires Inv(keys, s)
    requires s.inodes.Keys <= t.inodes.Keys && s.dirs <= t.dirs
    requires forall q :: q in t.names ==> (q in KeyPaths(keys) && Above(q) <= t.dirs) || q in s.names
    requires forall q :: q in t.names ==> exists q' :: q' in s.names && s.names[q'] == t.names[q]
    ensures NamesOk(keys, t, t.names)
  {
    hide Inv, IsTemp, KeyPaths;
    NowOk(keys, s);
  }

  /** A put that is about to publish: the inode becomes published and holds the whole payload. */
  lemma PublishesWhole(keys: set<Str>, s: State, a: Action)
    requires Inv(keys, s) && a.Publish? && Enabled(keys, s, a) && Holds(s, a.c, Synced)
    ensures PublishedWhole(Apply(keys, s, a), s.clients[a.c].op.key, s.clients[a.c].phase.ino)
    ensures s.inodes[s.clients[a.c].phase.ino].content == s.clients[a.c].op.data
  {
    hide Inv, MapAt, IsTemp, PathOf;
    ClientNow(keys, s, a.c);
    HolderAlone(keys, s, a.c);
  }

  lemma PublishKeeps(keys: set<Str>, s: State, a: Action)
    requires GoodKeys(keys) && Inv(keys, s) && a.Publish? && Enabled(keys, s, a)
    ensures Inv(keys, Apply(keys, s, a)) && Extends(s, Apply(keys, s, a))
  {
    hide Inv, MapAt, KeyPaths, Fixed, IsTemp, PathOf, VersionOk, Linearized, Extends, GoodKeys, PublishedWhole;
    var t := Apply(keys, s, a);
    var op := s.clients[a.c].op;
    ClientNow(keys, s, a.c);
    DirsApart(keys, s);
    HoldersHaveFiles(keys, s);
    OwnersAreApart(keys, s);
    KeyIsNotTemp(keys, op.key);
    LeavesExtends(s, t, a.c);
    LeavesKeepsOthers(keys, s, t, a.c);
    MapAtStays(s, t, |s.history|);
    ChangeAnswered(s, t, t.responses[|s.responses|]);
    NamesStay(keys, s, t);
    PublishesWhole(keys, s, a);
    ChangedTogether(keys, s, t, op);
    Assemble(keys, s, t, {a.c});
  }

  // ------------------------------------------------------------------------------------------
  // A crash.

  /** A name that survives names what it named in some version, which is published and synced if the name is a key's. */
  lemma CrashSlot(keys: set<Str>, s: State, names: Names, k: Str) returns (i: nat)
    requires Inv(keys, s) && RollsBackTo(s.trail, names) && k in keys
    ensures i < |s.trail| && Slot(names, k) == Slot(s.trail[i].names, k)
  {
    hide Inv, PathOf;
    NowOk(keys, s);
    if PathOf(k) in names {
      i :| 0 <= i < |s.trail| && PathOf(k) in s.trail[i].names && s.trail[i].names[PathOf(k)] == names[PathOf(k)];
    } else {
      i :| 0 <= i < |s.trail| && PathOf(k) !in s.trail[i].names;
    }
  }

  lemma TrailNow(keys: set<Str>, s: State, i: nat)
    requires Inv(keys, s) && i < |s.trail|
    ensures VersionOk(keys, s, s.trail[i])
  {
    hide VersionOk;
  }

  lemma CrashKeepsNames(keys: set<Str>, s: State, names: Names)
    requires Inv(keys, s) && RollsBackTo(s.trail, names)
    ensures NamesOk(keys, s, names)
  {
    hide Inv, IsTemp, KeyPaths, PublishedWhole, MapOf, MapAt;
    forall q | q in names
      ensures (IsTemp(q) || q in KeyPaths(keys)) && names[q] in s.inodes && Above(q) <= s.dirs
    {
      var i :| 0 <= i < |s.trail| && q in s.trail[i].names && s.trail[i].names[q] == names[q];
      TrailNow(keys, s, i);
    }
  }

  lemma CrashVersionOk(keys: set<Str>, s: State, a: Action)
    requires Inv(keys, s) && a.Crash? && Enabled(keys, s, a)
    ensures VersionOk(keys, Apply(keys, s, a), Version(a.names, 0))
  {
    hide Inv, PathOf, Slot, MapOf, IsTemp, KeyPaths;
    var t := Apply(keys, s, a);
    CrashKeepsNames(keys, s, a.names);
    forall k | k in keys && Slot(a.names, k).Some?
      ensures PublishedWhole(t, k, Slot(a.names, k).value)
    {
      var i := CrashSlot(keys, s, a.names, k);
      TrailNow(keys, s, i);
      assert PublishedWhole(s, k, Slot(s.trail[i].names, k).value);
    }
  }

  lemma CrashKeeps(keys: set<Str>, s: State, a: Action)
    requires Inv(keys, s) && a.Crash? && Enabled(keys, s, a)
    ensures Inv(keys, Apply(keys, s, a))
  {
    hide PathOf, VersionOk, Fixed, IsTemp, KeyPaths, MapOf;
    CrashVersionOk(keys, s, a);
    var t := Apply(keys, s, a);
    assert t.trail[0].at == 0;
    assert Recorded(t, 0);
  }

  // ------------------------------------------------------------------------------------------
  // Every step.

  /** No step but a crash touches a published inode, or the past. */
  lemma StepKeeps(keys: set<Str>, s: State, a: Action)
    requires GoodKeys(keys) && Inv(keys, s) && Enabled(keys, s, a)
    ensures Inv(keys, Apply(keys, s, a))
    ensures !a.Crash? ==> Extends(s, Apply(keys, s, a))
  {
    hide GoodKeys, Inv, Enabled, Apply, Extends;
    match a
    case Invoke(_, _) => InvokeKeeps(keys, s, a);
    case MakeParents(_) => MakeParentsKeeps(keys, s, a);
    case CreateTemp(_, _, _) => CreateTempKeeps(keys, s, a);
    case WritePiece(_, _) => WritingKeeps(keys, s, a);
    case FinishWriting(_) => FinishWritingKeeps(keys, s, a);
    case Sync(_) => WritingKeeps(keys, s, a);
    case Publish(_) => PublishKeeps(keys, s, a);
    case GiveUp(_, _) => GiveUpKeeps(keys, s, a);
    case Scribble(_, _) => ScribbleKeeps(keys, s, a);
    case Open(_, _) => OpenKeeps(keys, s, a);
    case ReadPiece(_, _) => ReadingKeeps(keys, s, a);
    case ReadEnd(_) => ReadAnswerKeeps(keys, s, a);
    case ReadLength(_) => ReadingKeeps(keys, s, a);
    case ReadByte(_, _) => ReadingKeeps(keys, s, a);
    case ReadShort(_, _) => NeverObstructed(keys, s, a);
    case ReadFull(_) => ReadAnswerKeeps(keys, s, a);
    case Unlink(_) => UnlinkKeeps(keys, s, a);
    case Look(_) => LookKeeps(keys, s, a);
    case Miss(_) => LookKeeps(keys, s, a);
    case Obstructed(_) => NeverObstructed(keys, s, a);
    case Crash(_, _, _) => CrashKeeps(keys, s, a);
  }
}
