/**
  No call is ever stuck: whatever the others have done, a client can end its call by its own steps, without giving
  up, and is then answered.
*/
module Progress {
  import opened Bytes
  import opened Keys
  import opened FileModel
  import opened Transfer
  import opened Protocol
  import opened Interleavings
  import opened Calls
  import R = Reachable

  /** A step of client `c` towards its answer. */
  predicate By(a: Action, c: nat) {
    match a
    case MakeParents(d) => d == c
    case CreateTemp(d, _, _) => d == c
    case WritePiece(d, _) => d == c
    case FinishWriting(d) => d == c
    case Sync(d) => d == c
    case Publish(d) => d == c
    case Open(d, _) => d == c
    case ReadPiece(d, _) => d == c
    case ReadEnd(d) => d == c
    case ReadLength(d) => d == c
    case ReadByte(d, _) => d == c
    case ReadFull(d) => d == c
    case Unlink(d) => d == c
    case Look(d) => d == c
    case Miss(d) => d == c
    case _ => false
  }

  /** The actions are all the client's own; the last one answers it, and does not fail it. */
  ghost predicate Finishes(keys: set<Str>, s: State, actions: seq<Action>, c: nat)
    decreases |actions|
  {
    && actions != [] && By(actions[0], c) && Enabled(keys, s, actions[0])
    && var t := Apply(keys, s, actions[0]);
       if |actions| == 1 then Answers(s, t, c) && !t.responses[|s.responses|].outcome.Failed?
       else c in t.clients && t.responses == s.responses && Finishes(keys, t, actions[1..], c)
  }

  ghost predicate CanFinish(keys: set<Str>, s: State, c: nat) {
    exists actions :: Finishes(keys, s, actions, c)
  }

  /** A reachable state of canonical keys. */
  ghost predicate Arises(keys: set<Str>, s: State) {
    CanonicalSet(keys) && R.Reachable(keys, s)
  }

  lemma LastStep(keys: set<Str>, s: State, a: Action, c: nat)
    requires Arises(keys, s) && By(a, c) && Final(a) && Enabled(keys, s, a)
    ensures CanFinish(keys, s, c)
  {
    hide CanonicalSet, R.Reachable, Enabled, Apply;
    OneAtATime(keys, s, a);
    OnlyGivingUpFails(keys, s, a);
    assert Finishes(keys, s, [a], c);
  }

  lemma StepThen(keys: set<Str>, s: State, a: Action, c: nat)
    requires By(a, c) && !Final(a) && Enabled(keys, s, a)
    requires var t := Apply(keys, s, a); c in t.clients && CanFinish(keys, t, c)
    ensures CanFinish(keys, s, c)
  {
    hide Enabled, Apply;
    OneAtATime(keys, s, a);
    var t := Apply(keys, s, a);
    var rest :| Finishes(keys, t, rest, c);
    assert ([a] + rest)[1..] == rest;
    assert Finishes(keys, s, [a] + rest, c);
  }

  lemma StepArises(keys: set<Str>, s: State, a: Action)
    requires Arises(keys, s) && Enabled(keys, s, a)
    ensures Arises(keys, Apply(keys, s, a))
  {
    hide CanonicalSet, R.Reachable, Enabled, Apply;
    R.StepReaches(keys, s, a);
  }

  lemma Holding(keys: set<Str>, s: State)
    requires Arises(keys, s)
    ensures GoodKeys(keys) && Inv(keys, s)
  {
    hide CanonicalSet, R.Reachable, GoodKeys, Inv;
    R.ReachableOk(keys, s);
  }

  // ------------------------------------------------------------------------------------------
  // Puts.

  lemma SyncedFinishes(keys: set<Str>, s: State, c: nat)
    requires Arises(keys, s) && Holds(s, c, Synced)
    ensures CanFinish(keys, s, c)
  {
    hide Arises, CanFinish, Inv, GoodKeys, PathOf, IsTemp;
    Holding(keys, s);
    NothingInTheWay(keys, s, c);
    HoldersHaveFiles(keys, s);
    LastStep(keys, s, Publish(c), c);
  }

  lemma WrittenFinishes(keys: set<Str>, s: State, c: nat)
    requires Arises(keys, s) && Holds(s, c, Written)
    ensures CanFinish(keys, s, c)
  {
    hide Arises, CanFinish, PathOf, IsTemp;
    StepArises(keys, s, Sync(c));
    SyncedFinishes(keys, Apply(keys, s, Sync(c)), c);
    StepThen(keys, s, Sync(c), c);
  }

  lemma FilledFinishes(keys: set<Str>, s: State, c: nat)
    requires Arises(keys, s) && Holds(s, c, Writing) && s.inodes[s.clients[c].phase.ino].content == s.clients[c].op.data
    ensures CanFinish(keys, s, c)
  {
    hide Arises, CanFinish, PathOf, IsTemp;
    StepArises(keys, s, FinishWriting(c));
    WrittenFinishes(keys, Apply(keys, s, FinishWriting(c)), c);
    StepThen(keys, s, FinishWriting(c), c);
  }

  lemma WritingFinishes(keys: set<Str>, s: State, c: nat)
    requires Arises(keys, s) && Holds(s, c, Writing)
    ensures CanFinish(keys, s, c)
  {
    hide Arises, CanFinish, PathOf, IsTemp;
    var a := WritePiece(c, s.clients[c].op.data);
    StepArises(keys, s, a);
    FilledFinishes(keys, Apply(keys, s, a), c);
    StepThen(keys, s, a, c);
  }

  ghost function Longest(paths: set<Path>): (n: nat)
    ensures forall p :: p in paths && p != [] ==> |p[|p| - 1]| <= n
  {
    if paths == {} then 0
    else
      var p :| p in paths;
      var rest := Longest(paths - {p});
      assert forall q :: q in paths ==> q == p || q in paths - {p};
      if p != [] then Max(rest, |p[|p| - 1]|) else rest
  }

  /** There is always another name for a temporary file. */
  lemma FreshTemp(paths: set<Path>, dir: Path) returns (tmp: Path)
    ensures IsTemp(tmp) && Parent(tmp) == dir && tmp !in paths
  {
    var name := TEMP_PREFIX + seq(Longest(paths) + 1, _ => 97);
    tmp := dir + [name];
    assert StartsWith(name, TEMP_PREFIX);
  }

  ghost function Highest(inos: set<Ino>): (n: nat)
    ensures forall i :: i in inos ==> i <= n
  {
    if inos == {} then 0
    else
      var i :| i in inos;
      assert forall j :: j in inos ==> j == i || j in inos - {i};
      Max(Highest(inos - {i}), i)
  }

  lemma ParentsMadeFinishes(keys: set<Str>, s: State, c: nat)
    requires Arises(keys, s) && At(s, c, ParentsMade)
    ensures CanFinish(keys, s, c)
  {
    hide Arises, CanFinish, Inv, PathOf, IsTemp, Parent;
    Holding(keys, s);
    ClientNow(keys, s, c);
    KeyNotRoot(keys, s.clients[c].op.key);
    var tmp := FreshTemp(s.names.Keys + s.dirs, Parent(Target(s, c)));
    var a := CreateTemp(c, tmp, Highest(s.inodes.Keys) + 1);
    StepArises(keys, s, a);
    WritingFinishes(keys, Apply(keys, s, a), c);
    StepThen(keys, s, a, c);
  }

  lemma KeyNotRoot(keys: set<Str>, k: Str)
    requires GoodKeys(keys) && k in keys
    ensures PathOf(k) != []
  {
  }

  // ------------------------------------------------------------------------------------------
  // Gets.

  lemma ReadingFinishes(keys: set<Str>, s: State, c: nat)
    requires Arises(keys, s) && c in s.clients && s.clients[c].phase.Reading?
    ensures CanFinish(keys, s, c)
  {
    hide Arises, CanFinish, Inv, PathOf, MapAt;
    Holding(keys, s);
    ClientNow(keys, s, c);
    var p := s.clients[c].phase;
    var left := |s.inodes[p.ino].content| - |p.got|;
    if left == 0 {
      LastStep(keys, s, ReadEnd(c), c);
    } else {
      var a := ReadPiece(c, left);
      StepArises(keys, s, a);
      LastStep(keys, Apply(keys, s, a), ReadEnd(c), c);
      StepThen(keys, s, a, c);
    }
  }

  function Unread(len: nat, moved: map<nat, byte>): set<nat> {
    set j | 0 <= j < len && j !in moved
  }

  lemma OneLess(len: nat, moved: map<nat, byte>, j: nat, b: byte)
    requires j < len && j !in moved
    ensures |Unread(len, moved[j := b])| < |Unread(len, moved)|
  {
    assert Unread(len, moved[j := b]) == Unread(len, moved) - {j} && j in Unread(len, moved);
  }

  lemma {:induction false} FillingFinishes(keys: set<Str>, s: State, c: nat)
    requires Arises(keys, s) && c in s.clients && s.clients[c].phase.Filling?
    ensures CanFinish(keys, s, c)
    decreases |Unread(s.clients[c].phase.len, s.clients[c].phase.moved)|
  {
    hide Arises, CanFinish, Inv, PathOf, MapAt, Unread;
    Holding(keys, s);
    ClientNow(keys, s, c);
    var p := s.clients[c].phase;
    if j: nat :| j < p.len && j !in p.moved {
      var a := ReadByte(c, j);
      StepArises(keys, s, a);
      var t := Apply(keys, s, a);
      OneLess(p.len, p.moved, j, s.inodes[p.ino].content[j]);
      FillingFinishes(keys, t, c);
      StepThen(keys, s, a, c);
    } else {
      LastStep(keys, s, ReadFull(c), c);
    }
  }

  lemma SizingFinishes(keys: set<Str>, s: State, c: nat)
    requires Arises(keys, s) && c in s.clients && s.clients[c].phase.Sizing?
    ensures CanFinish(keys, s, c)
  {
    hide Arises, CanFinish, Inv, PathOf, MapAt;
    Holding(keys, s);
    ClientNow(keys, s, c);
    var a := ReadLength(c);
    StepArises(keys, s, a);
    FillingFinishes(keys, Apply(keys, s, a), c);
    StepThen(keys, s, a, c);
  }

  // ------------------------------------------------------------------------------------------
  // All calls.

  lemma InvokedFinishes(keys: set<Str>, s: State, c: nat)
    requires Arises(keys, s) && c in s.clients && s.clients[c].phase.Invoked?
    ensures CanFinish(keys, s, c)
  {
    hide Arises, CanFinish, Inv, GoodKeys, PathOf, MapAt, PublishedWhole, InTheWay;
    Holding(keys, s);
    ClientNow(keys, s, c);
    NothingInTheWay(keys, s, c);
    SlotNow(keys, s, s.clients[c].op.key);
    SlotPublished(keys, s, s.clients[c].op.key);
    match s.clients[c].op
    case Put(_, _) =>
      StepArises(keys, s, MakeParents(c));
      ParentsMadeFinishes(keys, Apply(keys, s, MakeParents(c)), c);
      StepThen(keys, s, MakeParents(c), c);
    case Get(_) =>
      if Target(s, c) in s.names {
        StepArises(keys, s, Open(c, true));
        SizingFinishes(keys, Apply(keys, s, Open(c, true)), c);
        StepThen(keys, s, Open(c, true), c);
      } else {
        LastStep(keys, s, Miss(c), c);
      }
    case Delete(_) =>
      LastStep(keys, s, if Target(s, c) in s.names then Unlink(c) else Miss(c), c);
    case Exists(_) =>
      LastStep(keys, s, if Target(s, c) in s.names then Look(c) else Miss(c), c);
  }

  lemma SlotPublished(keys: set<Str>, s: State, k: Str)
    requires Inv(keys, s) && k in keys
    ensures PathOf(k) in s.names ==> s.names[PathOf(k)] in s.inodes
  {
    hide Inv, IsTemp, PublishedWhole, MapOf, MapAt, PathOf;
    NowOk(keys, s);
  }

  /**
    In every reachable state every call can be brought to its end by its own client's steps alone, and is then
    answered and not failed.
  */
  lemma EveryCallCanFinish(keys: set<Str>, s: State, c: nat)
    requires CanonicalSet(keys) && R.Reachable(keys, s) && c in s.clients
    ensures CanFinish(keys, s, c)
  {
    hide CanFinish, CanonicalSet, R.Reachable, Inv, GoodKeys, MapAt, IsTemp, PathOf;
    Holding(keys, s);
    ClientNow(keys, s, c);
    match s.clients[c].phase
    case Invoked => InvokedFinishes(keys, s, c);
    case ParentsMade => ParentsMadeFinishes(keys, s, c);
    case Holding(stage, _, _) =>
      match stage {
        case Writing => WritingFinishes(keys, s, c);
        case Written => WrittenFinishes(keys, s, c);
        case Synced => SyncedFinishes(keys, s, c);
      }
    case Reading(_, _, _) => ReadingFinishes(keys, s, c);
    case Sizing(_, _) => SizingFinishes(keys, s, c);
    case Filling(_, _, _, _) => FillingFinishes(keys, s, c);
  }
}
