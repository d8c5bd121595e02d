/**
  What a call leaves in the ring when it fails, and what that does to the next call. Ids start again at 0 every
  time, so a completion left over from a failed call can be taken for an answer to the next one.
*/
module Leftovers {
  import opened Bytes
  import opened Kernel
  import opened Transfer

  predicate IdleRing(s: State) {
    s.sq == [] && s.live == [] && s.cq == []
  }

  /** After `e` is queued a completion may show up while the kernel has not even taken `e`: it is not an answer to `e`. */
  ghost predicate AlienCompletion(s: State, e: Sqe) {
    exists u :: Reaches(s.(sq := s.sq + [e]), u) && u.cq != [] && e in u.sq
  }

  lemma {:induction false} RunKeepsHeld(trace: seq<State>, k: nat)
    requires Run(trace) && k < |trace|
    ensures Held(trace[k]) == Held(trace[0])
  {
    if k > 0 {
      RunKeepsHeld(trace, k - 1);
      assert Step(trace[k - 1], trace[k]);
    }
  }

  /** Some schedule answers a call with a completion of another call if and only if the ring was not idle. */
  lemma AlienCompletionExactlyFromBusyRing(s: State, e: Sqe)
    ensures AlienCompletion(s, e) <==> !IdleRing(s)
  {
    var t := s.(sq := s.sq + [e]);
    if IdleRing(s) {
      forall u | Reaches(t, u) && u.cq != []
        ensures e !in u.sq
      {
        var trace :| RunBetween(trace, t, u);
        RunKeepsHeld(trace, |trace| - 1);
      }
    } else {
      ReachesSelf(t);
      var u := t;
      if s.cq == [] && s.live == [] {
        u := t.(sq := t.sq[1..], live := [t.sq[0]]);
        assert Accepts(t, u);
        ReachesStep(t, t, u);
      }
      if s.cq == [] {
        var v := u.(live := u.live[1..], cq := [Cqe(u.live[0].id, -1)]);
        assert Completes(u, v, 0, -1);
        ReachesStep(t, u, v);
        u := v;
      }
      assert u.sq[|u.sq| - 1] == e;
    }
  }

  /** Submitting what fits: the submission queue, the work left, the operations in flight and the next id. */
  function Filled(op: Op, ringSize: nat, sq: seq<Sqe>, work: seq<Piece>, flying: map<nat, Piece>, id: nat)
    : (seq<Sqe>, seq<Piece>, map<nat, Piece>, nat)
    decreases |work|
  {
    if |flying| >= ringSize || work == [] then (sq, work, flying, id)
    else
      var p := work[0];
      Filled(op, ringSize, sq + [Sqe(op, id, p.fileOff, p.bufOff, U32(p.len))], work[1..], flying[id := p], id + 1)
  }

  lemma FillOne(op: Op, ringSize: nat, sq: seq<Sqe>, work: seq<Piece>, flying: map<nat, Piece>, id: nat)
    requires |flying| < ringSize && work != []
    ensures
      var p := work[0];
      Filled(op, ringSize, sq, work, flying, id)
      == Filled(op, ringSize, sq + [Sqe(op, id, p.fileOff, p.bufOff, U32(p.len))], work[1..], flying[id := p], id + 1)
  {
  }

  /** Filling adds to the queue and to the flight alike, under fresh ids, until the ring is full or the work is out. */
  lemma {:induction false} FilledCounts(op: Op, ringSize: nat, sq: seq<Sqe>, work: seq<Piece>, flying: map<nat, Piece>, id: nat)
    requires |flying| <= ringSize && forall k :: k in flying ==> k < id
    ensures
      var (sq', work', flying', id') := Filled(op, ringSize, sq, work, flying, id);
      && sq <= sq' && |sq'| - |sq| == |flying'| - |flying|
      && |flying'| + |work'| == |flying| + |work|
      && |flying'| <= ringSize && (|flying'| < ringSize ==> work' == [])
      && (forall k :: k in flying ==> k in flying' && flying'[k] == flying[k])
      && (forall k :: k in flying' ==> k < id')
    decreases |work|
  {
    if |flying| < ringSize && work != [] {
      var p := work[0];
      var sq1, flying1 := sq + [Sqe(op, id, p.fileOff, p.bufOff, U32(p.len))], flying[id := p];
      assert |flying1| == |flying| + 1;
      FilledCounts(op, ringSize, sq1, work[1..], flying1, id + 1);
      assert forall k :: k in flying ==> k in flying1 && flying1[k] == flying[k];
    }
  }

  /**
    A call that starts on ring `s` may end with `r` and leave ring `t` as soon as it has reaped one completion:
    the completion ends it, or was the last thing in flight and nothing else is there to reap.
  */
  ghost predicate MayEndAtOnce(op: Op, ringSize: nat, work: seq<Piece>, s: State, r: IoResult, t: State) {
    var (sq, left, flying, _) := Filled(op, ringSize, s.sq, work, map[], 0);
    exists q :: AnswersFirst(s.(sq := sq), q, t) && (q.id in flying ==> q.result <= flying[q.id].len) &&
                var (verdict, work', flying') := Settle(q, left, flying);
                verdict == r && (r.Ok? ==> work' == [] && flying' == map[] && t.cq == [])
  }

  /** Some schedule of the kernel makes `q` the oldest completion, and leaves `t` once it is taken. */
  ghost predicate AnswersFirst(s: State, q: Cqe, t: State) {
    Reaches(s, t.(cq := [q] + t.cq))
  }

  /** The entry for piece `i`, when the ids start at 0. */
  function EntryOf(op: Op, work: seq<Piece>, i: nat): Sqe
    requires i < |work|
  {
    Sqe(op, i, work[i].fileOff, work[i].bufOff, U32(work[i].len))
  }

  lemma TwoInFlight(op: Op, ringSize: nat, work: seq<Piece>)
    requires ringSize >= 2 && |work| >= 2
    ensures
      var (sq, _, flying, _) := Filled(op, ringSize, [], work, map[], 0);
      && [EntryOf(op, work, 0), EntryOf(op, work, 1)] <= sq && |sq| <= |work|
      && 1 in flying && flying[1] == work[1]
  {
    hide U32;
    var e0, e1 := EntryOf(op, work, 0), EntryOf(op, work, 1);
    var none: map<nat, Piece> := map[];
    var one := none[0 := work[0]];
    var two := one[1 := work[1]];
    assert |one| == 1 && |two| == 2;
    FillOne(op, ringSize, [], work, none, 0);
    FillOne(op, ringSize, [e0], work[1..], one, 1);
    assert [] + [e0] == [e0] && [e0] + [e1] == [e0, e1] && work[1..][1..] == work[2..];
    FilledCounts(op, ringSize, [e0, e1], work[2..], two, 2);
  }

  /** The kernel may take two entries and fail the second. */
  lemma SecondMayFail(a: State) returns (t: State)
    requires |a.sq| >= 2 && a.live == [] && a.cq == []
    ensures AnswersFirst(a, Cqe(a.sq[1].id, -5), t)
    ensures t == a.(sq := a.sq[2..], live := [a.sq[0]])
  {
    var b := a.(sq := a.sq[1..], live := [a.sq[0]]);
    var d := b.(sq := a.sq[2..], live := [a.sq[0], a.sq[1]]);
    t := d.(live := [a.sq[0]]);
    var q := Cqe(a.sq[1].id, -5);
    ReachesSelf(a);
    assert Accepts(a, b);
    ReachesStep(a, a, b);
    assert Accepts(b, d);
    ReachesStep(a, b, d);
    assert Completes(d, t.(cq := [q]), 1, -5);
    ReachesStep(a, d, t.(cq := [q]));
    assert [q] + t.cq == [q];
  }

  /** With two pieces in flight an error may come first, and the other operation is still the kernel's when the call is over. */
  lemma ErrorLeavesRingBusy(op: Op, ringSize: nat, work: seq<Piece>, s: State) returns (t: State)
    requires IdleRing(s) && ringSize >= 2 && |work| >= 2
    ensures MayEndAtOnce(op, ringSize, work, s, OsError(5), t)
    ensures t.live == [EntryOf(op, work, 0)] && t.cq == []
    ensures |work| == 2 ==> t.sq == []
    ensures t.file == s.file && t.mem == s.mem
  {
    hide Filled, AnswersFirst;
    TwoInFlight(op, ringSize, work);
    var (sq, _, flying, _) := Filled(op, ringSize, [], work, map[], 0);
    t := SecondMayFail(s.(sq := sq));
    assert AnswersFirst(s.(sq := sq), Cqe(1, -5), t);
  }

  /**
    A call that a completion ends at once is sure to leave an idle ring if and only if the buffer is a single
    chunk or the ring a single slot.
  */
  lemma ErrorLeavesRingIdleExactly(op: Op, ringSize: nat, offset: nat, chunk: nat, s: State)
    requires IdleRing(s) && ringSize > 0 && chunk > 0
    ensures
      var work := Cut(offset, chunk, 0, |s.mem|);
      (forall r, t :: MayEndAtOnce(op, ringSize, work, s, r, t) && (r.OsError? || r.UnexpectedEof?) ==> IdleRing(t))
      <==> |s.mem| <= chunk || ringSize == 1
  {
    var work := Cut(offset, chunk, 0, |s.mem|);
    CutCount(offset, chunk, |s.mem|);
    if |s.mem| <= chunk || ringSize == 1 {
      forall r, t | MayEndAtOnce(op, ringSize, work, s, r, t)
        ensures IdleRing(t)
      {
        FewLeaveNone(op, ringSize, work, s, r, t);
      }
    } else {
      var t := ErrorLeavesRingBusy(op, ringSize, work, s);
      assert !IdleRing(t);
    }
  }

  lemma FewLeaveNone(op: Op, ringSize: nat, work: seq<Piece>, s: State, r: IoResult, t: State)
    requires IdleRing(s) && (|work| <= 1 || ringSize == 1) && MayEndAtOnce(op, ringSize, work, s, r, t)
    ensures IdleRing(t)
  {
    hide Settle;
    FilledCounts(op, ringSize, s.sq, work, map[], 0);
    var (sq, left, flying, _) := Filled(op, ringSize, s.sq, work, map[], 0);
    var q: Cqe :| AnswersFirst(s.(sq := sq), q, t);
    var trace :| RunBetween(trace, s.(sq := sq), t.(cq := [q] + t.cq));
    RunKeepsHeld(trace, |trace| - 1);
  }

  /**
    What that leads to. A write of two pieces fails on the second; the first, left behind, moves one byte and
    reports it; then a call to write the byte `b` elsewhere takes that report, which carries id 0 again, for
    its own and returns Ok, and the byte is not written.
  */
  lemma LeftoverCompletionIsMistaken(file: seq<byte>, offset: nat, data: seq<byte>, chunk: nat, ringSize: nat, other: nat, b: byte)
    returns (t: State, u: State, v: State)
    requires 0 < chunk < |data| <= 2 * chunk && chunk < U32_SIZE && ringSize >= 2
    requires other < |file| && other != offset && file[other] != b
    ensures MayEndAtOnce(Write, ringSize, Cut(offset, chunk, 0, |data|), State(file, data, [], [], []), OsError(5), t)
    ensures Reaches(t, u) && u.sq == [] && u.live == []
    ensures MayEndAtOnce(Write, ringSize, Cut(other, chunk, 0, 1), u.(mem := [b]), Ok, v)
    ensures v.file != Overlay(u.file, other, [b])
  {
    hide Cut, MayEndAtOnce, Overlay, U32;
    var work := Cut(offset, chunk, 0, |data|);
    TwoPieces(offset, chunk, |data|);
    t := ErrorLeavesRingBusy(Write, ringSize, work, State(file, data, [], [], []));
    u := LeftoverMovesOneByte(t, offset, chunk);
    v := TakenForItsOwn(u.(mem := [b]), ringSize, other, chunk);
    OverlayReadsBack(u.file, other, [b]);
    assert Overlay(u.file, other, [b])[other..other + 1][0] == b;
  }

  lemma TwoPieces(offset: nat, chunk: nat, len: nat)
    requires 0 < chunk < len <= 2 * chunk && chunk < U32_SIZE
    ensures Cut(offset, chunk, 0, len) == [Piece(offset, 0, chunk), Piece(offset + chunk, chunk, len - chunk)]
    ensures U32(chunk) == chunk
  {
    assert Cut(offset, chunk, 0, len) == [Piece(offset, 0, chunk)] + Cut(offset, chunk, chunk, len);
    assert Cut(offset, chunk, chunk, len) == [Piece(offset + chunk, chunk, len - chunk)] + [];
  }

  lemma LeftoverMovesOneByte(t: State, offset: nat, chunk: nat) returns (u: State)
    requires t.sq == [] && t.cq == [] && chunk > 0 && t.mem != []
    requires t.live == [Sqe(Write, 0, offset, 0, chunk)]
    ensures Reaches(t, u) && u == State(PutByte(t.file, offset, t.mem[0]), t.mem, [], [], [Cqe(0, 1)])
  {
    var e := t.live[0];
    var moved := t.(file := PutByte(t.file, offset, t.mem[0]));
    u := moved.(live := [], cq := [Cqe(0, 1)]);
    ReachesSelf(t);
    assert MovesByte(t, moved, e, 0);
    ReachesStep(t, t, moved);
    assert Agrees(moved, e, 0);
    assert Completes(moved, u, 0, 1);
    ReachesStep(t, moved, u);
  }

  lemma TakenForItsOwn(u: State, ringSize: nat, other: nat, chunk: nat) returns (v: State)
    requires u.sq == [] && u.live == [] && u.cq == [Cqe(0, 1)] && ringSize > 0 && chunk > 0
    ensures MayEndAtOnce(Write, ringSize, Cut(other, chunk, 0, 1), u, Ok, v)
    ensures v.file == u.file
  {
    var p := Piece(other, 0, 1);
    var none: map<nat, Piece> := map[];
    var e := Sqe(Write, 0, other, 0, U32(1));
    assert Cut(other, chunk, 0, 1) == [p];
    FillOne(Write, ringSize, [], [p], none, 0);
    assert [] + [e] == [e] && [p][1..] == [];
    v := u.(sq := [e], cq := []);
    ReachesSelf(u.(sq := [e]));
    assert [Cqe(0, 1)] + v.cq == u.cq;
    assert AnswersFirst(u.(sq := [e]), Cqe(0, 1), v);
    assert none[0 := p] - {0} == map[];
  }
}
