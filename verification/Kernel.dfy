/**
  The environment of the io_uring engine: what the kernel may do with the operations it was handed.
  A state is one file, the memory of one buffer, the submission queue, the operations the kernel has
  accepted, and the completion queue. Everything here is an assumption about the kernel, not about
  the engine; the engine is proved against every run these steps allow.
*/
module Kernel {
  import opened Bytes

  datatype Op = Read | Write

  datatype Sqe = Sqe(op: Op, id: nat, fileOff: nat, bufOff: nat, len: nat)

  datatype Cqe = Cqe(id: nat, result: int)

  datatype State = State(file: seq<byte>, mem: seq<byte>, sq: seq<Sqe>, live: seq<Sqe>, cq: seq<Cqe>)

  /** The kernel takes the oldest submitted entry. */
  ghost predicate Accepts(s: State, t: State) {
    s.sq != [] && t == s.(sq := s.sq[1..], live := s.live + [s.sq[0]])
  }

  /** Byte `d` of an accepted operation moves between memory and file, at any time and in any order. */
  ghost predicate MovesByte(s: State, t: State, e: Sqe, d: nat) {
    && e in s.live
    && d < e.len
    && e.bufOff + d < |s.mem|
    && match e.op
       case Write => t == s.(file := PutByte(s.file, e.fileOff + d, s.mem[e.bufOff + d]))
       case Read =>
         && e.fileOff + d < |s.file|
         && t == s.(mem := s.mem[e.bufOff + d := s.file[e.fileOff + d]])
  }

  /** Byte `d` of operation `e` is the same in file and memory. */
  predicate Agrees(s: State, e: Sqe, d: nat) {
    && e.bufOff + d < |s.mem|
    && e.fileOff + d < |s.file|
    && s.file[e.fileOff + d] == s.mem[e.bufOff + d]
  }

  /**
    The results an operation may report: an error, or a count of bytes that really moved. Counts may
    be short. A read of a non-empty range reports 0 only at end of file.
  */
  ghost predicate MayReport(s: State, e: Sqe, result: int) {
    result < 0 ||
    (&& result <= e.len
     && (forall d: nat :: d < result ==> Agrees(s, e, d))
     && (e.op.Read? && result == 0 && e.len > 0 ==> |s.file| <= e.fileOff))
  }

  /** Accepted operation number `i` finishes, whatever its position, and is reported once. */
  ghost predicate Completes(s: State, t: State, i: nat, result: int) {
    && i < |s.live|
    && MayReport(s, s.live[i], result)
    && t == s.(live := s.live[..i] + s.live[i + 1..], cq := s.cq + [Cqe(s.live[i].id, result)])
  }

  ghost predicate Step(s: State, t: State) {
    || Accepts(s, t)
    || (exists e, d :: MovesByte(s, t, e, d))
    || (exists i, result :: Completes(s, t, i, result))
  }

  ghost predicate Run(trace: seq<State>) {
    trace != [] && forall i :: 0 <= i < |trace| - 1 ==> Step(trace[i], trace[i + 1])
  }

  ghost predicate RunBetween(trace: seq<State>, s: State, t: State) {
    Run(trace) && trace[0] == s && trace[|trace| - 1] == t
  }

  /** Some schedule of kernel steps leads from `s` to `t`. */
  ghost predicate Reaches(s: State, t: State) {
    exists trace :: RunBetween(trace, s, t)
  }

  lemma ReachesSelf(s: State)
    ensures Reaches(s, s)
  {
    assert RunBetween([s], s, s);
  }

  lemma ReachesStep(s: State, t: State, u: State)
    requires Reaches(s, t) && Step(t, u)
    ensures Reaches(s, u)
  {
    var trace :| RunBetween(trace, s, t);
    var longer := trace + [u];
    forall i | 0 <= i < |longer| - 1
      ensures Step(longer[i], longer[i + 1])
    {
      assert i < |trace| - 1 ==> Step(trace[i], trace[i + 1]);
    }
    assert RunBetween(longer, s, u);
  }
}
