/**
  What holds after every run of the protocol, of any length, with any number of clients and crashes.
*/
module Reachable {
  import opened Bytes
  import opened Keys
  import opened FileModel
  import opened Protocol
  import opened Interleavings

  /** The actions lead from one state to another. */
  ghost predicate Leads(keys: set<Str>, s: State, actions: seq<Action>, t: State)
    decreases |actions|
  {
    if actions == [] then s == t
    else Enabled(keys, s, actions[0]) && Leads(keys, Apply(keys, s, actions[0]), actions[1..], t)
  }

  ghost predicate Reachable(keys: set<Str>, s: State) {
    exists actions :: Leads(keys, INIT, actions, s)
  }

  lemma InitOk(keys: set<Str>)
    requires GoodKeys(keys)
    ensures Inv(keys, INIT)
  {
    hide PathOf, IsTemp;
    assert INIT.trail[0].at == 0;
    assert Recorded(INIT, 0);
  }

  lemma CrashKeepsPublished(keys: set<Str>, s: State, a: Action, ino: Ino)
    requires a.Crash? && Enabled(keys, s, a) && Fixed(s, ino)
    ensures Fixed(Apply(keys, s, a), ino) && Apply(keys, s, a).inodes[ino] == s.inodes[ino]
  {
    hide RollsBackTo, MapOf;
  }

  lemma {:induction false} RunKeeps(keys: set<Str>, s: State, actions: seq<Action>, t: State)
    requires GoodKeys(keys) && Inv(keys, s) && Leads(keys, s, actions, t)
    ensures Inv(keys, t)
    ensures forall ino :: Fixed(s, ino) ==> Fixed(t, ino) && t.inodes[ino] == s.inodes[ino]
    decreases |actions|
  {
    hide GoodKeys, Inv, Enabled, Apply;
    if actions != [] {
      var next := Apply(keys, s, actions[0]);
      StepKeeps(keys, s, actions[0]);
      forall ino | Fixed(s, ino)
        ensures Fixed(next, ino) && next.inodes[ino] == s.inodes[ino]
      {
        if actions[0].Crash? {
          CrashKeepsPublished(keys, s, actions[0], ino);
        }
      }
      RunKeeps(keys, next, actions[1..], t);
    }
  }

  lemma ReachableOk(keys: set<Str>, s: State)
    requires CanonicalSet(keys) && Reachable(keys, s)
    ensures GoodKeys(keys) && Inv(keys, s)
  {
    hide CanonicalSet, GoodKeys, Inv, Leads;
    CanonicalKeysAreGood(keys);
    InitOk(keys);
    var actions :| Leads(keys, INIT, actions, s);
    RunKeeps(keys, INIT, actions, s);
  }

  // ------------------------------------------------------------------------------------------
  // Linearizability.

  /**
    Over canonical keys every interleaving is linearizable to the map: every call that did not fail is answered
    as the map answers at one moment of the call, the changes of the map are exactly the calls that report them,
    and a get returns the whole of some put's payload for its key. No call meets an obstruction, and no read
    comes up short.
  */
  lemma EveryRunIsLinearizable(keys: set<Str>, s: State)
    requires CanonicalSet(keys) && Reachable(keys, s)
    ensures Linearized(s)
    ensures forall i :: 0 <= i < |s.responses| ==>
              var r := s.responses[i];
              !r.outcome.IoError? && (r.outcome.Data? ==> !r.op.List? && (r.op.key, r.outcome.bytes) in s.puts)
    ensures forall a: Action :: a.Obstructed? || a.ReadShort? ==> !Enabled(keys, s, a)
  {
    hide CanonicalSet, GoodKeys, Reachable, MapAt, TrailOk, ClientOk, OwnersApart, Enabled;
    ReachableOk(keys, s);
    forall i | 0 <= i < |s.responses|
      ensures Legal(s, s.responses[i])
    {
    }
    forall a: Action | a.Obstructed? || a.ReadShort?
      ensures !Enabled(keys, s, a)
    {
      NeverObstructed(keys, s, a);
    }
  }

  /** A put that fails leaves every key as it was, whatever it had done. */
  lemma FailedPutChangesNothing(keys: set<Str>, s: State, a: Action)
    requires CanonicalSet(keys) && Reachable(keys, s) && a.GiveUp? && Enabled(keys, s, a)
    ensures MapOf(keys, Apply(keys, s, a).names, Apply(keys, s, a).inodes) == MapOf(keys, s.names, s.inodes)
  {
    hide CanonicalSet, GoodKeys, Reachable, Inv, MapAt, Apply, Enabled, NamesOk, MapOf, PublishedWhole, Extends;
    ReachableOk(keys, s);
    GiveUpKeeps(keys, s, a);
    GiveUpKeepsHistory(keys, s, a);
    NowOk(keys, s);
    NowOk(keys, Apply(keys, s, a));
  }

  lemma GiveUpKeepsHistory(keys: set<Str>, s: State, a: Action)
    requires a.GiveUp? && Enabled(keys, s, a)
    ensures Apply(keys, s, a).history == s.history
  {
  }

  // ------------------------------------------------------------------------------------------
  // Crashes.

  function Lookup(m: Blobs, key: Str): Option<seq<byte>> {
    if key in m then Some(m[key]) else None
  }

  /** What a key holds on disk. */
  function OnDisk(keys: set<Str>, s: State, key: Str): Option<seq<byte>> {
    Lookup(MapOf(keys, s.names, s.inodes), key)
  }

  /** At any moment, and so after a crash at any step, a key holds a whole and synced payload offered for it, or nothing. */
  lemma NoPartialPayload(keys: set<Str>, s: State, key: Str)
    requires CanonicalSet(keys) && Reachable(keys, s) && key in keys
    ensures PathOf(key) in s.names ==>
              && s.names[PathOf(key)] in s.inodes && s.inodes[s.names[PathOf(key)]].synced
              && (key, s.inodes[s.names[PathOf(key)]].content) in s.puts
    ensures OnDisk(keys, s, key) == Lookup(MapAt(s, |s.history|), key)
  {
    hide CanonicalSet, GoodKeys, Reachable, Inv, MapAt, PathOf;
    ReachableOk(keys, s);
    SlotNow(keys, s, key);
    if PathOf(key) in s.names {
      assert PublishedWhole(s, key, Slot(s.names, key).value);
    }
  }

  lemma VersionLookup(keys: set<Str>, s: State, i: nat, key: Str)
    requires Inv(keys, s) && i < |s.trail| && key in keys
    ensures s.trail[i].at <= |s.history|
    ensures Lookup(MapOf(keys, s.trail[i].names, s.inodes), key) == Lookup(MapAt(s, s.trail[i].at), key)
  {
    hide Inv, MapAt, NamesOk, MapOf, PublishedWhole;
    TrailNow(keys, s, i);
  }

  /** A crash takes each key back, by itself, to what it held after some number of the changes since the last crash. */
  lemma CrashRollsBack(keys: set<Str>, s: State, crash: Action, key: Str) returns (j: nat)
    requires CanonicalSet(keys) && Reachable(keys, s)
    requires crash.Crash? && Enabled(keys, s, crash) && key in keys
    ensures j <= |s.history|
    ensures OnDisk(keys, Apply(keys, s, crash), key) == Lookup(MapAt(s, j), key)
  {
    hide CanonicalSet, GoodKeys, Reachable, Inv, MapAt, PathOf;
    ReachableOk(keys, s);
    var i := CrashSlot(keys, s, crash.names, key);
    VersionLookup(keys, s, i, key);
    j := s.trail[i].at;
    TrailNow(keys, s, i);
    if Slot(s.trail[i].names, key).Some? {
      assert PublishedWhole(s, key, Slot(s.trail[i].names, key).value);
    }
  }

  ghost predicate SurvivesEveryCrash(keys: set<Str>, s: State, key: Str) {
    forall crash: Action :: crash.Crash? && Enabled(keys, s, crash) ==>
      OnDisk(keys, Apply(keys, s, crash), key) == OnDisk(keys, s, key)
  }

  lemma RootIsThere(keys: set<Str>, s: State)
    requires Inv(keys, s)
    ensures [] in s.dirs
  {
  }

  /** The whole directory may go back to any version since the last crash. */
  lemma CrashToVersion(keys: set<Str>, s: State, i: nat) returns (crash: Action)
    requires Inv(keys, s) && i < |s.trail|
    ensures crash.Crash? && Enabled(keys, s, crash)
    ensures Apply(keys, s, crash).names == s.trail[i].names && Apply(keys, s, crash).inodes == s.inodes
  {
    hide Inv, MapOf;
    TrailNow(keys, s, i);
    RootIsThere(keys, s);
    crash := Crash(s.trail[i].names, s.dirs, s.inodes);
  }

  /**
    The directory is never synced, so what a key holds is sure to survive a crash exactly when nothing since
    the last one has changed it: no number of acknowledged puts makes it durable.
  */
  lemma DurableExactlyWhenUnchanged(keys: set<Str>, s: State, key: Str)
    requires CanonicalSet(keys) && Reachable(keys, s) && key in keys
    ensures SurvivesEveryCrash(keys, s, key) <==>
            forall j: nat :: j <= |s.history| ==> Lookup(MapAt(s, j), key) == Lookup(MapAt(s, |s.history|), key)
  {
    hide CanonicalSet, GoodKeys, Reachable, Inv, MapAt, PathOf, Enabled, Apply, MapOf, Lookup;
    ReachableOk(keys, s);
    NoPartialPayload(keys, s, key);
    if SurvivesEveryCrash(keys, s, key) {
      forall j: nat | j <= |s.history|
        ensures Lookup(MapAt(s, j), key) == Lookup(MapAt(s, |s.history|), key)
      {
        var i := VersionOf(keys, s, j);
        var crash := CrashToVersion(keys, s, i);
        VersionLookup(keys, s, i, key);
        assert OnDisk(keys, Apply(keys, s, crash), key) == OnDisk(keys, s, key);
      }
    } else {
      var crash: Action :|
        crash.Crash? && Enabled(keys, s, crash) && OnDisk(keys, Apply(keys, s, crash), key) != OnDisk(keys, s, key);
      var j := CrashRollsBack(keys, s, crash, key);
    }
  }

  lemma VersionOf(keys: set<Str>, s: State, j: nat) returns (i: nat)
    requires Inv(keys, s) && j <= |s.history|
    ensures i < |s.trail| && s.trail[i].at == j
  {
    hide VersionOk, ClientOk, OwnersApart, Linearized;
    assert Recorded(s, j);
    i :| 0 <= i < |s.trail| && s.trail[i].at == j;
  }

  // ------------------------------------------------------------------------------------------
  // A put is acknowledged and then lost.

  lemma {:induction false} OneMore(keys: set<Str>, s: State, actions: seq<Action>, t: State, a: Action)
    requires Leads(keys, s, actions, t) && Enabled(keys, t, a)
    ensures Leads(keys, s, actions + [a], Apply(keys, t, a))
    decreases |actions|
  {
    hide Enabled, Apply;
    if actions == [] {
      var next := Apply(keys, s, a);
      assert ([a])[1..] == [];
      assert Leads(keys, next, [], next);
      assert Leads(keys, s, [a], next);
    } else {
      OneMore(keys, Apply(keys, s, actions[0]), actions[1..], t, a);
      assert (actions + [a])[1..] == actions[1..] + [a];
    }
  }

  lemma StepReaches(keys: set<Str>, s: State, a: Action)
    requires Reachable(keys, s) && Enabled(keys, s, a)
    ensures Reachable(keys, Apply(keys, s, a))
  {
    hide Leads, Enabled, Apply;
    var actions :| Leads(keys, INIT, actions, s);
    OneMore(keys, INIT, actions, s, a);
  }

  /** A first put that has made its parents. */
  lemma PutBegins(keys: set<Str>, key: Str, data: seq<byte>) returns (s: State)
    requires CanonicalSet(keys) && key in keys
    ensures Reachable(keys, s)
    ensures s == INIT.(clients := map[0 := Client(Put(key, data), ParentsMade, 0)],
                       dirs := {[]} + Above(PathOf(key)), puts := {(key, data)})
  {
    hide CanonicalSet, PathOf, Above, Inv, Reachable, GoodKeys;
    InitReachable(keys);
    StepReaches(keys, INIT, Invoke(0, Put(key, data)));
    var s1 := Apply(keys, INIT, Invoke(0, Put(key, data)));
    ReachableOk(keys, s1);
    NothingInTheWay(keys, s1, 0);
    StepReaches(keys, s1, MakeParents(0));
    s := Apply(keys, s1, MakeParents(0));
  }

  lemma InitReachable(keys: set<Str>)
    ensures Reachable(keys, INIT)
  {
    assert Leads(keys, INIT, [], INIT);
  }

  /** A first put that has begun its temporary file. */
  lemma PutWrites(keys: set<Str>, key: Str, data: seq<byte>) returns (s: State)
    requires CanonicalSet(keys) && key in keys
    ensures Reachable(keys, s) && s.history == [] && s.responses == [] && s.base == map[]
    ensures Holds(s, 0, Writing) && s.clients[0].op == Put(key, data)
  {
    hide CanonicalSet, PathOf, Above, Inv, Reachable;
    CanonicalKeysAreGood(keys);
    var s2 := PutBegins(keys, key, data);
    assert PathOf(key) in KeyPaths(keys);
    var tmp := Parent(PathOf(key)) + [TEMP_PREFIX];
    assert IsTemp(tmp) && Parent(tmp) == Parent(PathOf(key));
    StepReaches(keys, s2, CreateTemp(0, tmp, 0));
    s := Apply(keys, s2, CreateTemp(0, tmp, 0));
  }

  /** A put fills its file, syncs it and publishes it. */
  lemma PutEnds(keys: set<Str>, s: State, key: Str, data: seq<byte>) returns (t: State)
    requires CanonicalSet(keys) && Reachable(keys, s)
    requires key in keys && Holds(s, 0, Writing) && s.clients[0].op == Put(key, data)
    ensures Reachable(keys, t) && t.base == s.base && t.history == s.history + [Put(key, data)]
    ensures |t.responses| == |s.responses| + 1
    ensures t.responses[|s.responses|].op == Put(key, data) && t.responses[|s.responses|].outcome == Stored
  {
    hide CanonicalSet, PathOf, Above, Inv, Reachable;
    StepReaches(keys, s, WritePiece(0, data));
    var s1 := Apply(keys, s, WritePiece(0, data));
    StepReaches(keys, s1, FinishWriting(0));
    var s2 := Apply(keys, s1, FinishWriting(0));
    StepReaches(keys, s2, Sync(0));
    var s3 := Apply(keys, s2, Sync(0));
    ReachableOk(keys, s3);
    NothingInTheWay(keys, s3, 0);
    HoldersHaveFiles(keys, s3);
    StepReaches(keys, s3, Publish(0));
    t := Apply(keys, s3, Publish(0));
  }

  /** The first put may be acknowledged, be there to read, and be gone after a crash. */
  lemma AcknowledgedPutMayVanish(keys: set<Str>, key: Str, data: seq<byte>) returns (s: State, crash: Action)
    requires CanonicalSet(keys) && key in keys
    ensures Reachable(keys, s) && |s.responses| == 1
    ensures s.responses[0].op == Put(key, data) && s.responses[0].outcome == Stored
    ensures OnDisk(keys, s, key) == Some(data)
    ensures crash.Crash? && Enabled(keys, s, crash) && OnDisk(keys, Apply(keys, s, crash), key) == None
  {
    hide CanonicalSet, GoodKeys, Reachable, Inv, Enabled, Apply, MapOf, Holds;
    var s0 := PutWrites(keys, key, data);
    s := PutEnds(keys, s0, key, data);
    NoPartialPayload(keys, s, key);
    assert s.history[..1] == s.history && s.history[..0] == [];
    ReachableOk(keys, s);
    var i := VersionOf(keys, s, 0);
    crash := CrashToVersion(keys, s, i);
    VersionLookup(keys, s, i, key);
  }
}
