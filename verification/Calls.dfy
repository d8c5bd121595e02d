/**
  What each call gets, among other clients: the step that answers it gives the answer of the map, only giving up
  fails it, the answer is never older than the call, and the call can always be brought to its end by its own steps.
*/
module Calls {
  import opened Bytes
  import opened Keys
  import opened FileModel
  import opened Transfer
  import opened Protocol
  import opened Interleavings
  import R = Reachable

  // ------------------------------------------------------------------------------------------
  // The answers.

  /** The step answers client `c`, and nobody else, for the moment when the map had seen `at` changes. */
  ghost predicate AnsweredWith(s: State, t: State, c: nat, outcome: Outcome, at: nat) {
    && c in s.clients && t.clients == s.clients - {c}
    && t.responses == s.responses + [Response(c, s.clients[c].op, outcome, s.clients[c].since, at, |t.history|)]
  }

  ghost function Now(s: State): Blobs {
    MapAt(s, |s.history|)
  }

  /**
    A put is answered Stored by its rename; a delete Removed by its unlink, when its key is in the map; an exists true
    when its key is in the map; and each of get, delete and exists in the negative when it is not.
  */
  lemma AtOnce(keys: set<Str>, s: State, a: Action)
    requires CanonicalSet(keys) && R.Reachable(keys, s) && Enabled(keys, s, a)
    ensures
      var t := Apply(keys, s, a);
      && (a.Publish? ==> s.clients[a.c].op.Put? && AnsweredWith(s, t, a.c, Stored, |s.history|))
      && (a.Unlink? ==>
            s.clients[a.c].op.Delete? && s.clients[a.c].op.key in Now(s) && AnsweredWith(s, t, a.c, Removed, |s.history|))
      && (a.Look? ==>
            s.clients[a.c].op.Exists? && s.clients[a.c].op.key in Now(s) && AnsweredWith(s, t, a.c, Present(true), |s.history|))
      && (a.Miss? ==>
            && !s.clients[a.c].op.List? && s.clients[a.c].op.key !in Now(s)
            && AnsweredWith(s, t, a.c, if s.clients[a.c].op.Exists? then Present(false) else NotFound, |s.history|))
  {
    hide CanonicalSet, R.Reachable, Inv, MapAt, PathOf, PublishedWhole, InTheWay;
    R.ReachableOk(keys, s);
    if a.Unlink? || a.Look? || a.Miss? {
      ClientNow(keys, s, a.c);
      SlotNow(keys, s, s.clients[a.c].op.key);
    }
  }

  /** A get opens when its key is in the map, and when it is done it is answered the payload of that moment. */
  lemma GetsThePayload(keys: set<Str>, s: State, a: Action)
    requires CanonicalSet(keys) && R.Reachable(keys, s) && Enabled(keys, s, a)
    ensures
      var t := Apply(keys, s, a);
      && (a.Open? ==>
            && s.clients[a.c].op.Get? && s.clients[a.c].op.key in Now(s)
            && t.responses == s.responses && a.c in t.clients && ReadingAt(t.clients[a.c].phase) == Some(|s.history|))
      && (a.ReadEnd? || a.ReadFull? ==>
            && ReadingAt(s.clients[a.c].phase).Some?
            && var at := ReadingAt(s.clients[a.c].phase).value;
            && s.clients[a.c].op.Get? && at <= |s.history| && s.clients[a.c].op.key in MapAt(s, at)
            && AnsweredWith(s, t, a.c, Data(MapAt(s, at)[s.clients[a.c].op.key]), at))
  {
    hide CanonicalSet, R.Reachable, Inv, MapAt, PathOf, InTheWay;
    R.ReachableOk(keys, s);
    if a.Open? {
      ClientNow(keys, s, a.c);
      SlotNow(keys, s, s.clients[a.c].op.key);
    } else if a.ReadEnd? {
      ClientNow(keys, s, a.c);
      assert s.clients[a.c].phase.got == s.inodes[s.clients[a.c].phase.ino].content;
    } else if a.ReadFull? {
      ClientNow(keys, s, a.c);
      var p := s.clients[a.c].phase;
      assert seq(p.len, j requires 0 <= j < p.len => p.moved[j]) == s.inodes[p.ino].content;
    }
  }

  /** The moment of a reader's open. */
  function ReadingAt(p: Phase): Option<nat> {
    match p
    case Reading(_, at, _) => Some(at)
    case Sizing(_, at) => Some(at)
    case Filling(_, at, _, _) => Some(at)
    case _ => None
  }

  /** The step answers client `c`, and nobody else. */
  ghost predicate Answers(s: State, t: State, c: nat) {
    && c in s.clients && t.clients == s.clients - {c}
    && |t.responses| == |s.responses| + 1 && s.responses <= t.responses
    && var r := t.responses[|s.responses|]; r.c == c && r.op == s.clients[c].op && r.since == s.clients[c].since
  }

  predicate Final(a: Action) {
    a.Publish? || a.GiveUp? || a.ReadEnd? || a.ReadShort? || a.ReadFull? || a.Unlink? || a.Look? || a.Miss? || a.Obstructed?
  }

  lemma DroppingAnswersNobody(s: State, c: nat, cleaned: bool)
    requires c in s.clients
    ensures
      var t := Dropped(s, c, cleaned);
      t.clients == s.clients && t.responses == s.responses && t.history == s.history
  {
  }

  lemma ChangesAnswer(keys: set<Str>, s: State, a: Action)
    requires Enabled(keys, s, a) && (a.Publish? || a.Unlink?)
    ensures Answers(s, Apply(keys, s, a), a.c) && s.history <= Apply(keys, s, a).history
  {
    hide IsTemp, PathOf, InTheWay, MapOf, Fixed, Dropped;
  }

  lemma GivingUpAnswers(keys: set<Str>, s: State, a: Action)
    requires Enabled(keys, s, a) && (a.GiveUp? || a.Obstructed?)
    ensures Answers(s, Apply(keys, s, a), a.c) && s.history <= Apply(keys, s, a).history
  {
    DroppingAnswersNobody(s, a.c, if a.GiveUp? then a.cleaned else true);
    hide IsTemp, PathOf, InTheWay, MapOf, Fixed, Dropped, Target;
  }

  lemma ReadsAnswer(keys: set<Str>, s: State, a: Action)
    requires Enabled(keys, s, a) && (a.ReadEnd? || a.ReadShort? || a.ReadFull?)
    ensures Answers(s, Apply(keys, s, a), a.c) && s.history <= Apply(keys, s, a).history
  {
    hide IsTemp, PathOf, InTheWay, MapOf, Fixed, AnswerWhenAbsent, Dropped, Renamed, Advanced;
  }

  lemma LooksAnswer(keys: set<Str>, s: State, a: Action)
    requires Enabled(keys, s, a) && (a.Look? || a.Miss?)
    ensures Answers(s, Apply(keys, s, a), a.c) && s.history <= Apply(keys, s, a).history
  {
    hide IsTemp, PathOf, InTheWay, MapOf, Fixed, AnswerWhenAbsent, Dropped, Renamed, Advanced;
  }

  lemma OthersDoNot(keys: set<Str>, s: State, a: Action)
    requires Enabled(keys, s, a) && !Final(a) && !a.Crash?
    ensures Apply(keys, s, a).responses == s.responses && Apply(keys, s, a).history == s.history
  {
    hide IsTemp, PathOf, InTheWay, MapOf, Fixed, WriteFrame;
  }

  /** A step answers one client or none. */
  lemma OneAtATime(keys: set<Str>, s: State, a: Action)
    requires Enabled(keys, s, a) && !a.Crash?
    ensures var t := Apply(keys, s, a); if Final(a) then Answers(s, t, a.c) else t.responses == s.responses
    ensures s.history <= Apply(keys, s, a).history
  {
    hide Enabled, Apply, Answers;
    if Final(a) {
      if a.Publish? || a.Unlink? {
        ChangesAnswer(keys, s, a);
      } else if a.GiveUp? || a.Obstructed? {
        GivingUpAnswers(keys, s, a);
      } else if a.Look? || a.Miss? {
        LooksAnswer(keys, s, a);
      } else {
        ReadsAnswer(keys, s, a);
      }
    } else {
      OthersDoNot(keys, s, a);
    }
  }

  lemma NewCallsAreInvoked(keys: set<Str>, s: State, a: Action, d: nat)
    requires Enabled(keys, s, a) && a.Invoke? && d in Apply(keys, s, a).clients
    ensures
      var t := Apply(keys, s, a);
      (d in s.clients && t.clients[d] == s.clients[d]) || (a == Invoke(d, t.clients[d].op) && t.clients[d].since == |s.history|)
  {
    hide PathOf, InTheWay, MapOf;
  }

  lemma OldCallsStay(keys: set<Str>, s: State, a: Action, d: nat)
    requires Enabled(keys, s, a) && !a.Invoke? && !a.Crash? && d in Apply(keys, s, a).clients
    ensures
      var t := Apply(keys, s, a);
      d in s.clients && t.clients[d].op == s.clients[d].op && t.clients[d].since == s.clients[d].since
  {
    hide IsTemp, PathOf, InTheWay, MapOf, Fixed, WriteFrame, AnswerWhenAbsent;
    if Final(a) {
      OneAtATime(keys, s, a);
      hide Apply;
    }
  }

  /** No client changes its request, or the moment when its call began. */
  lemma CallsStay(keys: set<Str>, s: State, a: Action, d: nat)
    requires Enabled(keys, s, a) && !a.Crash? && d in Apply(keys, s, a).clients
    ensures
      var t := Apply(keys, s, a);
      || (d in s.clients && t.clients[d].op == s.clients[d].op && t.clients[d].since == s.clients[d].since)
      || (a == Invoke(d, t.clients[d].op) && t.clients[d].since == |s.history|)
  {
    hide Enabled, Apply;
    if a.Invoke? {
      NewCallsAreInvoked(keys, s, a, d);
    } else {
      OldCallsStay(keys, s, a, d);
    }
  }

  /** Only giving up fails a call: every other step that answers gives a real answer. */
  lemma OnlyGivingUpFails(keys: set<Str>, s: State, a: Action)
    requires CanonicalSet(keys) && R.Reachable(keys, s) && Enabled(keys, s, a) && !a.Crash? && !a.GiveUp?
    ensures
      var t := Apply(keys, s, a);
      && s.responses <= t.responses
      && forall i :: |s.responses| <= i < |t.responses| ==>
           !t.responses[i].outcome.Failed?
  {
    hide CanonicalSet, R.Reachable, Inv, MapAt, PathOf, InTheWay, Enabled, Apply, GoodKeys;
    AtOnce(keys, s, a);
    GetsThePayload(keys, s, a);
    OneAtATime(keys, s, a);
    R.ReachableOk(keys, s);
    if a.Obstructed? || a.ReadShort? {
      NeverObstructed(keys, s, a);
    }
  }

  // ------------------------------------------------------------------------------------------
  // No answer is older than its call.

  /** Client `c`, if it is there at all, was invoked after the map had seen `begun` changes; and so were its answers from number `n` on. */
  ghost predicate Since(s: State, c: nat, begun: nat, n: nat) {
    && begun <= |s.history| && n <= |s.responses|
    && (c in s.clients ==> begun <= s.clients[c].since)
    && forall i :: n <= i < |s.responses| && s.responses[i].c == c ==> begun <= s.responses[i].since
  }

  lemma StepKeepsSince(keys: set<Str>, s: State, a: Action, c: nat, begun: nat, n: nat)
    requires Enabled(keys, s, a) && !a.Crash? && Since(s, c, begun, n)
    ensures Since(Apply(keys, s, a), c, begun, n)
  {
    hide Enabled, Apply;
    OneAtATime(keys, s, a);
    var t := Apply(keys, s, a);
    if c in t.clients {
      CallsStay(keys, s, a, c);
    }
    forall i | n <= i < |t.responses| && t.responses[i].c == c
      ensures begun <= t.responses[i].since
    {
      if i < |s.responses| {
        assert t.responses[i] == s.responses[i];
      }
    }
  }

  lemma {:induction false} RunKeepsSince(keys: set<Str>, s: State, actions: seq<Action>, t: State, c: nat, begun: nat, n: nat)
    requires R.Leads(keys, s, actions, t) && Since(s, c, begun, n)
    requires forall i :: 0 <= i < |actions| ==> !actions[i].Crash?
    ensures Since(t, c, begun, n)
    decreases |actions|
  {
    hide Enabled, Apply, Since;
    if actions != [] {
      StepKeepsSince(keys, s, actions[0], c, begun, n);
      RunKeepsSince(keys, Apply(keys, s, actions[0]), actions[1..], t, c, begun, n);
    }
  }

  /**
    Real time: a call that begins after some changes have been acknowledged is answered for a moment after them. So a
    get that begins when a put has been answered sees that put, or a later change.
  */
  lemma AnswersAreFresh(keys: set<Str>, s: State, actions: seq<Action>, t: State, c: nat)
    requires CanonicalSet(keys) && R.Reachable(keys, s) && c !in s.clients
    requires R.Leads(keys, s, actions, t) && forall i :: 0 <= i < |actions| ==> !actions[i].Crash?
    ensures forall i :: |s.responses| <= i < |t.responses| && t.responses[i].c == c && !t.responses[i].outcome.Failed? ==>
              |s.history| <= t.responses[i].at
    ensures forall i :: 0 <= i < |s.responses| && !s.responses[i].outcome.Failed? ==> s.responses[i].until <= |s.history|
  {
    hide CanonicalSet, GoodKeys, R.Reachable, R.Leads, TrailOk, ClientOk, OwnersApart, MapAt, MapStep;
    R.ReachableOk(keys, s);
    R.RunKeeps(keys, s, actions, t);
    RunKeepsSince(keys, s, actions, t, c, |s.history|, |s.responses|);
    forall i | 0 <= i < |s.responses| && !s.responses[i].outcome.Failed?
      ensures s.responses[i].until <= |s.history|
    {
      assert Legal(s, s.responses[i]);
    }
    forall i | |s.responses| <= i < |t.responses| && t.responses[i].c == c && !t.responses[i].outcome.Failed?
      ensures |s.history| <= t.responses[i].at
    {
      assert Legal(t, t.responses[i]);
    }
  }

  // ------------------------------------------------------------------------------------------
  // No temporary file is forgotten.

  /** A put in progress owns the temporary file. */
  ghost predicate Owned(s: State, q: Path) {
    exists c :: c in s.clients && s.clients[c].phase.Holding? && s.clients[c].phase.tmp == q
  }

  /** Every temporary file is owned, or was left by a failed clean-up or a crash. */
  ghost predicate TempsOwned(s: State) {
    forall q :: q in s.names && IsTemp(q) ==> q in s.litter || Owned(s, q)
  }

  /** A temporary file appears by being made, and no other way. */
  lemma TempsAreMade(keys: set<Str>, s: State, a: Action, q: Path)
    requires GoodKeys(keys) && Inv(keys, s) && Enabled(keys, s, a) && !a.Crash?
    requires q in Apply(keys, s, a).names && IsTemp(q)
    ensures q in s.names || (a.CreateTemp? && q == a.tmp && Owned(Apply(keys, s, a), q))
  {
    hide Inv, GoodKeys, PathOf, InTheWay, MapOf, Fixed, IsTemp;
    if a.Publish? || a.Unlink? {
      ClientNow(keys, s, a.c);
      KeyIsNotTemp(keys, s.clients[a.c].op.key);
    }
    if a.CreateTemp? && q == a.tmp {
      assert Apply(keys, s, a).clients[a.c].phase.tmp == q;
    }
  }

  /** A client that holds a temporary file goes on holding it until it is answered. */
  lemma HoldersHoldOn(keys: set<Str>, s: State, a: Action, c: nat)
    requires Enabled(keys, s, a) && !a.Crash?
    requires c in s.clients && s.clients[c].phase.Holding?
    ensures
      var t := Apply(keys, s, a);
      if Final(a) && a.c == c then c !in t.clients
      else c in t.clients && t.clients[c].phase.Holding? && t.clients[c].phase.tmp == s.clients[c].phase.tmp
  {
    hide PathOf, InTheWay, MapOf, Fixed, IsTemp, WriteFrame;
  }

  /** When a put is answered its temporary file is gone, or left as litter. */
  lemma AnsweredPutsCleanUp(keys: set<Str>, s: State, a: Action)
    requires Enabled(keys, s, a) && Final(a)
    requires s.clients[a.c].phase.Holding?
    requires a.Publish? ==> PathOf(s.clients[a.c].op.key) != s.clients[a.c].phase.tmp
    ensures
      var t := Apply(keys, s, a);
      s.clients[a.c].phase.tmp in t.names ==> s.clients[a.c].phase.tmp in t.litter
  {
    hide PathOf, InTheWay, MapOf, Fixed, IsTemp;
  }

  /** An owner keeps its temporary file, unless the file goes away or is left as litter. */
  lemma OwnersKeepTemps(keys: set<Str>, s: State, a: Action, q: Path, c: nat)
    requires Enabled(keys, s, a) && !a.Crash?
    requires c in s.clients && s.clients[c].phase.Holding? && s.clients[c].phase.tmp == q
    requires a.Publish? ==> PathOf(s.clients[a.c].op.key) != q
    ensures
      var t := Apply(keys, s, a);
      q in t.names ==> q in t.litter || (c in t.clients && t.clients[c].phase.Holding? && t.clients[c].phase.tmp == q)
  {
    hide Enabled, Apply, PathOf;
    HoldersHoldOn(keys, s, a, c);
    if Final(a) && a.c == c {
      AnsweredPutsCleanUp(keys, s, a);
    }
  }

  lemma LitterGrows(keys: set<Str>, s: State, a: Action)
    requires Enabled(keys, s, a)
    ensures !a.Crash? ==> s.litter <= Apply(keys, s, a).litter
    ensures !a.Crash? && !(a.GiveUp? && !a.cleaned) ==> Apply(keys, s, a).litter == s.litter
    ensures a.Crash? ==> forall q :: q in Apply(keys, s, a).names && IsTemp(q) ==> q in Apply(keys, s, a).litter
  {
    hide PathOf, InTheWay, MapOf, Fixed, IsTemp;
  }

  /** Litter grows only by failed clean-ups and crashes. */
  lemma StepKeepsTempsOwned(keys: set<Str>, s: State, a: Action)
    requires GoodKeys(keys) && Inv(keys, s) && TempsOwned(s) && Enabled(keys, s, a)
    ensures TempsOwned(Apply(keys, s, a))
    ensures !a.Crash? && !(a.GiveUp? && !a.cleaned) ==> Apply(keys, s, a).litter == s.litter
  {
    hide Inv, GoodKeys, Enabled, Apply, IsTemp;
    var t := Apply(keys, s, a);
    LitterGrows(keys, s, a);
    forall q | q in t.names && IsTemp(q)
      ensures q in t.litter || Owned(t, q)
    {
      if !a.Crash? {
        TempsAreMade(keys, s, a, q);
        if q in s.names && q !in s.litter {
          var c :| c in s.clients && s.clients[c].phase.Holding? && s.clients[c].phase.tmp == q;
          PublishTargetIsNotTemp(keys, s, a);
          OwnersKeepTemps(keys, s, a, q, c);
        }
      }
    }
  }

  lemma PublishTargetIsNotTemp(keys: set<Str>, s: State, a: Action)
    requires GoodKeys(keys) && Inv(keys, s) && Enabled(keys, s, a)
    ensures a.Publish? ==> !IsTemp(PathOf(s.clients[a.c].op.key))
  {
    hide Inv, GoodKeys, PathOf, IsTemp, InTheWay;
    if a.Publish? {
      ClientNow(keys, s, a.c);
      KeyIsNotTemp(keys, s.clients[a.c].op.key);
    }
  }

  lemma {:induction false} RunKeepsTempsOwned(keys: set<Str>, s: State, actions: seq<Action>, t: State)
    requires GoodKeys(keys) && Inv(keys, s) && TempsOwned(s) && R.Leads(keys, s, actions, t)
    ensures TempsOwned(t)
    decreases |actions|
  {
    hide GoodKeys, Inv, Enabled, Apply, TempsOwned, Fixed;
    if actions != [] {
      StepKeeps(keys, s, actions[0]);
      StepKeepsTempsOwned(keys, s, actions[0]);
      RunKeepsTempsOwned(keys, Apply(keys, s, actions[0]), actions[1..], t);
    }
  }

  /** After a put has given up, operations it left behind may still write its file, with any bytes. */
  lemma FailedPutMayStillWrite(keys: set<Str>, s: State, a: Action, content: seq<byte>)
    requires a.GiveUp? && Enabled(keys, s, a) && s.clients[a.c].phase.Holding? && s.clients[a.c].phase.ino in s.inodes
    ensures
      var ino := s.clients[a.c].phase.ino;
      var late := Scribble(ino, content);
      && Enabled(keys, Apply(keys, s, a), late)
      && Apply(keys, Apply(keys, s, a), late).inodes[ino].content == content
  {
  }

  /** In every reachable state a temporary file belongs to a put in progress, unless a failed clean-up or a crash left it. */
  lemma NoTempIsForgotten(keys: set<Str>, s: State)
    requires CanonicalSet(keys) && R.Reachable(keys, s)
    ensures TempsOwned(s)
  {
    hide CanonicalSet, GoodKeys, Inv, R.Leads;
    CanonicalKeysAreGood(keys);
    R.InitOk(keys);
    var actions :| R.Leads(keys, INIT, actions, s);
    RunKeepsTempsOwned(keys, INIT, actions, s);
  }
}
