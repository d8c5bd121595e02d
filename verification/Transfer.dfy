/**
  One call of the engine, seen from outside its loop: how the buffer is cut up, what is confirmed,
  what the kernel holds, and what every kernel step keeps.
*/
module Transfer {
  import opened Bytes
  import opened Kernel

  /** A range still to be transferred. */
  datatype Piece = Piece(fileOff: nat, bufOff: nat, len: nat)

  /** The fixed facts of one call: its direction and offset, and the file and buffer it started from. */
  datatype Call = Call(op: Op, offset: nat, chunk: nat, file0: seq<byte>, mem0: seq<byte>)

  predicate Covers(p: Piece, j: nat) {
    p.bufOff <= j < p.bufOff + p.len
  }

  predicate Apart(p: Piece, q: Piece) {
    p.bufOff + p.len <= q.bufOff || q.bufOff + q.len <= p.bufOff
  }

  /** A piece is non-empty, inside the buffer, no longer than a chunk, and aimed at its own file range. */
  predicate Fits(c: Call, p: Piece) {
    && 0 < p.len <= c.chunk
    && p.bufOff + p.len <= |c.mem0|
    && p.fileOff == c.offset + p.bufOff
  }

  ghost predicate Pending(work: seq<Piece>, flying: map<nat, Piece>, j: nat) {
    || (exists i :: 0 <= i < |work| && Covers(work[i], j))
    || (exists id :: id in flying && Covers(flying[id], j))
  }

  ghost predicate AllFit(c: Call, work: seq<Piece>, flying: map<nat, Piece>) {
    && (forall i :: 0 <= i < |work| ==> Fits(c, work[i]))
    && (forall id :: id in flying ==> Fits(c, flying[id]))
  }

  ghost predicate AllApart(work: seq<Piece>, flying: map<nat, Piece>) {
    && (forall i, k :: 0 <= i < k < |work| ==> Apart(work[i], work[k]))
    && (forall a, b :: a in flying && b in flying && a != b ==> Apart(flying[a], flying[b]))
    && (forall i, a :: 0 <= i < |work| && a in flying ==> Apart(work[i], flying[a]))
  }

  /** Confirmed bytes, queued pieces and pieces in flight cut the buffer into disjoint parts, exactly. */
  ghost predicate Partition(c: Call, work: seq<Piece>, flying: map<nat, Piece>, done: set<nat>) {
    && AllFit(c, work, flying)
    && AllApart(work, flying)
    && (forall j :: j in done ==> j < |c.mem0|)
    && (forall j: nat :: j < |c.mem0| ==> (j in done <==> !Pending(work, flying, j)))
  }

  /** The pieces cut the first `end` bytes of the buffer, in order, each aimed at its own part of the file. */
  ghost predicate Tiles(work: seq<Piece>, offset: nat, chunk: nat, end: nat) {
    && (forall i :: 0 <= i < |work| ==>
          && 0 < work[i].len <= chunk
          && work[i].fileOff == offset + work[i].bufOff
          && work[i].bufOff + work[i].len <= end)
    && (forall i, k :: 0 <= i < k < |work| ==> Apart(work[i], work[k]))
    && (forall j: nat :: j < end ==> Pending(work, map[], j))
  }

  lemma TilesNone(offset: nat, chunk: nat)
    ensures Tiles([], offset, chunk, 0)
  {
  }

  lemma TilesPush(work: seq<Piece>, offset: nat, chunk: nat, end: nat, len: nat)
    requires Tiles(work, offset, chunk, end) && 0 < len <= chunk
    ensures Tiles(work + [Piece(offset + end, end, len)], offset, chunk, end + len)
  {
    var longer := work + [Piece(offset + end, end, len)];
    forall j: nat | j < end + len
      ensures Pending(longer, map[], j)
    {
      if j < end {
        assert Pending(work, map[], j);
        var i :| 0 <= i < |work| && Covers(work[i], j);
        assert Covers(longer[i], j);
      } else {
        assert Covers(longer[|work|], j);
      }
    }
  }

  /** The pieces that a buffer of `len` bytes is cut into from `pos` on: whole chunks, then what is left. */
  function Cut(offset: nat, chunk: nat, pos: nat, len: nat): seq<Piece>
    requires 0 < chunk && pos <= len
    decreases len - pos
  {
    if pos == len then []
    else
      var take := if len - pos < chunk then len - pos else chunk;
      [Piece(offset + pos, pos, take)] + Cut(offset, chunk, pos + take, len)
  }

  lemma CutCount(offset: nat, chunk: nat, len: nat)
    requires 0 < chunk
    ensures |Cut(offset, chunk, 0, len)| <= 1 <==> len <= chunk
    ensures len == 0 <==> Cut(offset, chunk, 0, len) == []
  {
    if len > chunk {
      assert Cut(offset, chunk, 0, len) == [Piece(offset, 0, chunk)] + Cut(offset, chunk, chunk, len);
    }
  }

  predicate Within(pieces: seq<Piece>, len: nat) {
    forall i :: 0 <= i < |pieces| ==> pieces[i].bufOff + pieces[i].len <= len
  }

  /** A file after the pieces were written one after the other. */
  function OverlayPieces(file: seq<byte>, pieces: seq<Piece>, data: seq<byte>): seq<byte>
    requires Within(pieces, |data|)
    decreases |pieces|
  {
    if pieces == [] then file
    else
      var p := pieces[0];
      OverlayPieces(Overlay(file, p.fileOff, data[p.bufOff..p.bufOff + p.len]), pieces[1..], data)
  }

  lemma OverlayFirst(file: seq<byte>, p: Piece, rest: seq<Piece>, data: seq<byte>)
    requires p.bufOff + p.len <= |data| && Within([p] + rest, |data|)
    ensures Within(rest, |data|)
    ensures OverlayPieces(file, [p] + rest, data)
         == OverlayPieces(Overlay(file, p.fileOff, data[p.bufOff..p.bufOff + p.len]), rest, data)
  {
    hide Overlay;
    assert ([p] + rest)[0] == p && ([p] + rest)[1..] == rest;
    forall i | 0 <= i < |rest|
      ensures rest[i].bufOff + rest[i].len <= |data|
    {
      assert ([p] + rest)[i + 1] == rest[i];
    }
  }

  lemma {:induction false} CutWithin(offset: nat, chunk: nat, pos: nat, len: nat)
    requires 0 < chunk && pos <= len
    ensures Within(Cut(offset, chunk, pos, len), len)
    decreases len - pos
  {
    if pos < len {
      CutWithin(offset, chunk, pos + if len - pos < chunk then len - pos else chunk, len);
    }
  }

  /** Cutting loses nothing: writing the pieces is writing the buffer. */
  lemma {:induction false} CutWritesAll(file: seq<byte>, offset: nat, chunk: nat, pos: nat, data: seq<byte>)
    requires 0 < chunk && pos <= |data|
    ensures Within(Cut(offset, chunk, pos, |data|), |data|)
    ensures OverlayPieces(Overlay(file, offset, data[..pos]), Cut(offset, chunk, pos, |data|), data) == Overlay(file, offset, data)
    decreases |data| - pos
  {
    hide Overlay, OverlayPieces, Within;
    CutWithin(offset, chunk, pos, |data|);
    if pos == |data| {
      assert data[..pos] == data;
      OverlayNothing(Overlay(file, offset, data), data);
    } else {
      var take := if |data| - pos < chunk then |data| - pos else chunk;
      CutWritesAll(file, offset, chunk, pos + take, data);
      OverlayOfChunks(file, offset, data[..pos], data[pos..pos + take]);
      assert data[..pos] + data[pos..pos + take] == data[..pos + take];
      OverlayFirst(Overlay(file, offset, data[..pos]), Piece(offset + pos, pos, take), Cut(offset, chunk, pos + take, |data|), data);
    }
  }

  lemma OverlayNothing(file: seq<byte>, data: seq<byte>)
    ensures Within([], |data|) && OverlayPieces(file, [], data) == file
  {
  }

  /** Freshly cut pieces are a partition in which nothing is confirmed. */
  lemma TilesPartition(c: Call, work: seq<Piece>)
    requires Tiles(work, c.offset, c.chunk, |c.mem0|)
    ensures Partition(c, work, map[], {})
  {
  }

  /** The bytes that a completion reporting `n` confirms. */
  function Confirmed(p: Piece, n: nat): (r: set<nat>)
    ensures forall j :: j in r <==> p.bufOff <= j < p.bufOff + n
  {
    set j | p.bufOff <= j < p.bufOff + n && Covers(p.(len := n), j)
  }

  /** What is left of a piece after a completion reporting `n`. */
  function Remainder(p: Piece, n: nat): Piece
    requires n <= p.len
  {
    Piece(p.fileOff + n, p.bufOff + n, p.len - n)
  }

  /** The queue after a completion reporting `n`: a short transfer puts its remainder at the back. */
  function Requeued(work: seq<Piece>, p: Piece, n: nat): seq<Piece>
    requires n <= p.len
  {
    if n == p.len then work else work + [Remainder(p, n)]
  }

  /** Moving the first queued piece into flight keeps the partition. */
  lemma SubmitKeepsPartition(c: Call, work: seq<Piece>, flying: map<nat, Piece>, done: set<nat>, id: nat)
    requires Partition(c, work, flying, done)
    requires work != [] && id !in flying
    ensures Partition(c, work[1..], flying[id := work[0]], done)
  {
    var flying' := flying[id := work[0]];
    forall j: nat
      ensures Pending(work, flying, j) <==> Pending(work[1..], flying', j)
    {
      if Pending(work[1..], flying', j) && !Covers(work[0], j) {
        if i :| 0 <= i < |work[1..]| && Covers(work[1..][i], j) {
          assert Covers(work[i + 1], j);
        }
      }
      if i :| 0 <= i < |work| && Covers(work[i], j) {
        assert i == 0 ==> Covers(flying'[id], j);
        assert i > 0 ==> Covers(work[1..][i - 1], j);
      } else if a :| a in flying && Covers(flying[a], j) {
        assert Covers(flying'[a], j);
      }
    }
  }

  /** A completion, short or full, moves its bytes from pending to confirmed and keeps the partition. */
  lemma ReapKeepsPartition(c: Call, work: seq<Piece>, flying: map<nat, Piece>, done: set<nat>, id: nat, n: nat)
    requires Partition(c, work, flying, done)
    requires id in flying && 0 < n <= flying[id].len
    ensures Partition(c, Requeued(work, flying[id], n), flying - {id}, done + Confirmed(flying[id], n))
  {
    var p := flying[id];
    var work' := Requeued(work, p, n);
    var flying' := flying - {id};
    forall j: nat
      ensures Pending(work, flying, j) <==> Pending(work', flying', j) || p.bufOff <= j < p.bufOff + n
      ensures p.bufOff <= j < p.bufOff + n ==> !Pending(work', flying', j)
    {
      if Covers(p, j) {
        assert Covers(flying[id], j);
        assert n < p.len && p.bufOff + n <= j ==> Covers(work'[|work|], j);
      } else if i :| 0 <= i < |work| && Covers(work[i], j) {
        assert Covers(work'[i], j);
      } else if a :| a in flying && Covers(flying[a], j) {
        assert Covers(flying'[a], j);
      }
    }
  }

  // ------------------------------------------------------------------------------------------
  // Counting: lengths left, and the bound on submissions.

  function WorkBytes(work: seq<Piece>): nat {
    if work == [] then 0 else WorkBytes(work[..|work| - 1]) + work[|work| - 1].len
  }

  ghost function FlyingBytes(flying: map<nat, Piece>): nat {
    if flying == map[] then 0
    else
      var id :| id in flying;
      flying[id].len + FlyingBytes(flying - {id})
  }

  lemma {:induction false} WorkBytesFirst(work: seq<Piece>)
    requires work != []
    ensures WorkBytes(work) == work[0].len + WorkBytes(work[1..])
  {
    if |work| > 1 {
      var front := work[..|work| - 1];
      WorkBytesFirst(front);
      assert work[1..][..|work| - 2] == front[1..];
    }
  }

  lemma WorkBytesNone()
    ensures WorkBytes([]) == 0
  {
  }

  lemma FlyingBytesNone()
    ensures FlyingBytes(map[]) == 0
  {
  }

  lemma WorkBytesPush(work: seq<Piece>, p: Piece)
    ensures WorkBytes(work + [p]) == WorkBytes(work) + p.len
  {
    assert (work + [p])[..|work|] == work;
  }

  lemma {:induction false} FlyingBytesTake(flying: map<nat, Piece>, id: nat)
    requires id in flying
    ensures FlyingBytes(flying) == flying[id].len + FlyingBytes(flying - {id})
    decreases |flying|
  {
    var k :| k in flying && FlyingBytes(flying) == flying[k].len + FlyingBytes(flying - {k});
    if k != id {
      FlyingBytesTake(flying - {k}, id);
      FlyingBytesTake(flying - {id}, k);
      assert flying - {k} - {id} == flying - {id} - {k};
    }
  }

  lemma FlyingBytesAdd(flying: map<nat, Piece>, id: nat, p: Piece)
    requires id !in flying
    ensures FlyingBytes(flying[id := p]) == FlyingBytes(flying) + p.len
  {
    FlyingBytesTake(flying[id := p], id);
    assert flying[id := p] - {id} == flying;
  }

  /** Non-empty pieces: there are never more pieces than bytes left. */
  lemma {:induction false} PiecesAtMostBytes(c: Call, work: seq<Piece>, flying: map<nat, Piece>)
    requires AllFit(c, work, flying)
    ensures |work| <= WorkBytes(work)
    ensures |flying| <= FlyingBytes(flying)
    decreases |work| + |flying|
  {
    if work != [] {
      PiecesAtMostBytes(c, work[..|work| - 1], flying);
    } else if flying != map[] {
      var id :| id in flying;
      FlyingBytesTake(flying, id);
      PiecesAtMostBytes(c, work, flying - {id});
      assert (flying - {id}).Keys == flying.Keys - {id};
    }
  }

  // ------------------------------------------------------------------------------------------
  // What the ring holds, and what each kernel step keeps.

  function SqeIds(s: seq<Sqe>): seq<nat> {
    seq(|s|, i requires 0 <= i < |s| => s[i].id)
  }

  function CqeIds(s: seq<Cqe>): seq<nat> {
    seq(|s|, i requires 0 <= i < |s| => s[i].id)
  }

  /** The ids of everything the ring holds, wherever it is on its way. */
  ghost function RingIds(s: State): multiset<nat> {
    multiset(SqeIds(s.sq)) + multiset(SqeIds(s.live)) + multiset(CqeIds(s.cq))
  }

  ghost predicate Matches(c: Call, flying: map<nat, Piece>, e: Sqe) {
    && e.id in flying
    && e == Sqe(c.op, e.id, flying[e.id].fileOff, flying[e.id].bufOff, flying[e.id].len)
  }

  /** Buffer byte `j` agrees with the file byte it is aimed at. */
  ghost predicate Transferred(c: Call, s: State, j: nat) {
    j < |s.mem| && c.offset + j < |s.file| && s.file[c.offset + j] == s.mem[j]
  }

  ghost predicate Reported(c: Call, s: State, flying: map<nat, Piece>, q: Cqe) {
    && q.id in flying
    && var p := flying[q.id];
    && (q.result >= 0 ==>
          && q.result <= p.len
          && (forall j: nat :: p.bufOff <= j < p.bufOff + q.result ==> Transferred(c, s, j))
          && (q.result == 0 && c.op.Read? ==> |s.file| <= p.fileOff))
  }

  /** Each byte in the target range is old, a hole zero, or new; nothing else moved. */
  ghost predicate WriteFrame(old_: seq<byte>, now: seq<byte>, off: nat, data: seq<byte>) {
    && |old_| <= |now|
    && (data == [] ==> now == old_)
    && |now| <= Max(|old_|, off + |data|)
    && forall i :: 0 <= i < |now| ==>
         || (i < |old_| && now[i] == old_[i])
         || (|old_| <= i && now[i] == 0)
         || (off <= i < off + |data| && now[i] == data[i - off])
  }

  /** Each buffer byte is untouched or the file byte it is aimed at. */
  ghost predicate ReadFrame(old_: seq<byte>, now: seq<byte>, file: seq<byte>, off: nat) {
    && |now| == |old_|
    && forall j :: 0 <= j < |now| ==>
         now[j] == old_[j] || (off + j < |file| && now[j] == file[off + j])
  }

  /** Only the target of the call changes, and only in the ways the call asked for. */
  ghost predicate Frame(c: Call, s: State) {
    match c.op
    case Write => s.mem == c.mem0 && WriteFrame(c.file0, s.file, c.offset, c.mem0)
    case Read => s.file == c.file0 && ReadFrame(c.mem0, s.mem, c.file0, c.offset)
  }

  /** The ring holds exactly the operations in flight, each once, each as it was submitted or truthfully reported. */
  ghost predicate RingHolds(c: Call, s: State, flying: map<nat, Piece>) {
    && RingIds(s) == multiset(flying.Keys)
    && (forall i :: 0 <= i < |s.sq| ==> Matches(c, flying, s.sq[i]))
    && (forall i :: 0 <= i < |s.live| ==> Matches(c, flying, s.live[i]))
    && (forall i :: 0 <= i < |s.cq| ==> Reported(c, s, flying, s.cq[i]))
    && Frame(c, s)
  }

  ghost predicate AllTransferred(c: Call, s: State, done: set<nat>) {
    forall j :: j in done ==> Transferred(c, s, j)
  }

  /** The invariant of one call between any two steps of the kernel. */
  ghost predicate Sound(c: Call, s: State, flying: map<nat, Piece>, done: set<nat>) {
    && AllFit(c, [], flying)
    && RingHolds(c, s, flying)
    && AllTransferred(c, s, done)
  }

  /** How many operations the ring holds, wherever they are on their way. */
  function Held(s: State): nat {
    |s.sq| + |s.live| + |s.cq|
  }

  lemma RingIdsCount(s: State, flying: map<nat, Piece>)
    requires RingIds(s) == multiset(flying.Keys)
    ensures Held(s) == |flying|
  {
    assert |RingIds(s)| == |s.sq| + |s.live| + |s.cq|;
  }

  lemma AcceptKeepsSound(c: Call, s: State, t: State, flying: map<nat, Piece>, done: set<nat>)
    requires Sound(c, s, flying, done) && Accepts(s, t)
    ensures Sound(c, t, flying, done)
  {
    assert SqeIds(s.sq) == [s.sq[0].id] + SqeIds(t.sq);
    assert SqeIds(t.live) == SqeIds(s.live) + [s.sq[0].id];
    forall j: nat | Transferred(c, s, j)
      ensures Transferred(c, t, j)
    {
    }
    forall i | 0 <= i < |t.cq|
      ensures Reported(c, t, flying, t.cq[i])
    {
      assert Reported(c, s, flying, s.cq[i]);
    }
  }

  /** Every operation of the call aims byte `j` of the buffer at the same file byte, so no byte move undoes another. */
  lemma MoveKeepsSound(c: Call, s: State, t: State, flying: map<nat, Piece>, done: set<nat>, e: Sqe, d: nat)
    requires Sound(c, s, flying, done) && MovesByte(s, t, e, d)
    ensures Sound(c, t, flying, done)
  {
    assert Matches(c, flying, e) && Fits(c, flying[e.id]);
    forall j: nat | Transferred(c, s, j)
      ensures Transferred(c, t, j)
    {
    }
    forall i | 0 <= i < |t.cq|
      ensures Reported(c, t, flying, t.cq[i])
    {
      assert Reported(c, s, flying, s.cq[i]);
    }
  }

  lemma CompleteKeepsIds(s: State, t: State, i: nat, result: int)
    requires Completes(s, t, i, result)
    ensures RingIds(t) == RingIds(s)
  {
    var e := s.live[i];
    assert SqeIds(s.live) == SqeIds(s.live[..i]) + [e.id] + SqeIds(s.live[i + 1..]);
    assert SqeIds(t.live) == SqeIds(s.live[..i]) + SqeIds(s.live[i + 1..]);
    assert CqeIds(t.cq) == CqeIds(s.cq) + [e.id];
  }

  /** A truthful report about an operation of this call confirms bytes of this call. */
  lemma ReportIsTruthful(c: Call, s: State, flying: map<nat, Piece>, e: Sqe, result: int)
    requires AllFit(c, [], flying) && Matches(c, flying, e) && MayReport(s, e, result)
    ensures Reported(c, s, flying, Cqe(e.id, result))
  {
    assert Fits(c, flying[e.id]);
    if result >= 0 {
      forall j: nat | e.bufOff <= j < e.bufOff + result
        ensures Transferred(c, s, j)
      {
        assert Agrees(s, e, j - e.bufOff);
      }
    }
  }

  lemma CompleteKeepsSound(c: Call, s: State, t: State, flying: map<nat, Piece>, done: set<nat>, i: nat, result: int)
    requires Sound(c, s, flying, done) && Completes(s, t, i, result)
    ensures Sound(c, t, flying, done)
  {
    CompleteKeepsIds(s, t, i, result);
    ReportIsTruthful(c, s, flying, s.live[i], result);
    forall j: nat | Transferred(c, s, j)
      ensures Transferred(c, t, j)
    {
    }
    forall k | 0 <= k < |t.cq|
      ensures Reported(c, t, flying, t.cq[k])
    {
      assert k < |s.cq| ==> Reported(c, s, flying, s.cq[k]);
    }
  }

  lemma StepKeepsSound(c: Call, s: State, t: State, flying: map<nat, Piece>, done: set<nat>)
    requires Sound(c, s, flying, done) && Step(s, t)
    ensures Sound(c, t, flying, done)
  {
    if Accepts(s, t) {
      AcceptKeepsSound(c, s, t, flying, done);
    } else if e, d :| MovesByte(s, t, e, d) {
      MoveKeepsSound(c, s, t, flying, done, e, d);
    } else {
      var i, result :| Completes(s, t, i, result);
      CompleteKeepsSound(c, s, t, flying, done, i, result);
    }
  }

  lemma {:induction false} RunKeepsSound(c: Call, trace: seq<State>, k: nat, flying: map<nat, Piece>, done: set<nat>)
    requires Run(trace) && k < |trace| && Sound(c, trace[0], flying, done)
    ensures Sound(c, trace[k], flying, done)
  {
    if k > 0 {
      RunKeepsSound(c, trace, k - 1, flying, done);
      StepKeepsSound(c, trace[k - 1], trace[k], flying, done);
    }
  }

  /** Whatever the kernel does, in whatever order, the call stays sound. */
  lemma ReachKeepsSound(c: Call, s: State, t: State, flying: map<nat, Piece>, done: set<nat>)
    requires Sound(c, s, flying, done) && Reaches(s, t)
    ensures Sound(c, t, flying, done)
  {
    var trace :| RunBetween(trace, s, t);
    RunKeepsSound(c, trace, |trace| - 1, flying, done);
  }

  lemma KeysOf(flying: map<nat, Piece>, id: nat, p: Piece)
    ensures id !in flying ==> multiset(flying[id := p].Keys) == multiset(flying.Keys) + multiset{id}
    ensures id in flying ==> multiset((flying - {id}).Keys) == multiset(flying.Keys) - multiset{id}
  {
    assert flying[id := p].Keys == flying.Keys + {id};
    assert (flying - {id}).Keys == flying.Keys - {id};
  }

  /** Queueing one more operation under a fresh id keeps the call sound. */
  lemma PushKeepsSound(c: Call, s: State, flying: map<nat, Piece>, done: set<nat>, id: nat, p: Piece)
    requires Sound(c, s, flying, done)
    requires id !in flying && Fits(c, p)
    ensures Sound(c, s.(sq := s.sq + [Sqe(c.op, id, p.fileOff, p.bufOff, p.len)]), flying[id := p], done)
  {
    var t := s.(sq := s.sq + [Sqe(c.op, id, p.fileOff, p.bufOff, p.len)]);
    var flying' := flying[id := p];
    assert RingIds(t) == multiset(flying'.Keys) by {
      assert SqeIds(t.sq) == SqeIds(s.sq) + [id];
      KeysOf(flying, id, p);
    }
    forall j: nat | Transferred(c, s, j)
      ensures Transferred(c, t, j)
    {
    }
    forall i | 0 <= i < |t.cq|
      ensures Reported(c, t, flying', t.cq[i])
    {
      assert Reported(c, s, flying, s.cq[i]);
    }
    forall e | Matches(c, flying, e)
      ensures Matches(c, flying', e)
    {
    }
  }

  /** What the ring hands back is always an operation in flight, and it is the only trace of that operation. */
  lemma ReapIsKnown(c: Call, s: State, q: Cqe, rest: seq<Cqe>, flying: map<nat, Piece>, done: set<nat>)
    requires Sound(c, s.(cq := [q] + rest), flying, done)
    ensures q.id in flying && Reported(c, s, flying, q)
    ensures RingIds(s.(cq := rest)) == multiset((flying - {q.id}).Keys)
    ensures forall e :: e in s.sq || e in s.live ==> e.id != q.id
    ensures forall x :: x in rest ==> x.id != q.id
  {
    var full := s.(cq := [q] + rest);
    var left := s.(cq := rest);
    assert Reported(c, full, flying, full.cq[0]);
    forall j: nat | Transferred(c, full, j)
      ensures Transferred(c, s, j)
    {
    }
    assert CqeIds(full.cq) == [q.id] + CqeIds(rest);
    assert RingIds(full) == RingIds(left) + multiset{q.id};
    KeysOf(flying, q.id, flying[q.id]);
    assert RingIds(full)[q.id] == RingIds(left)[q.id] + 1;
    forall e | e in s.sq || e in s.live
      ensures e.id != q.id
    {
      if e in s.sq {
        var i :| 0 <= i < |s.sq| && s.sq[i] == e;
        assert SqeIds(s.sq)[i] == e.id;
      } else {
        var i :| 0 <= i < |s.live| && s.live[i] == e;
        assert SqeIds(s.live)[i] == e.id;
      }
    }
    forall x | x in rest
      ensures x.id != q.id
    {
      var i :| 0 <= i < |rest| && rest[i] == x;
      assert CqeIds(rest)[i] == x.id;
    }
  }

  /** Reaping a completion keeps the call sound and confirms the bytes it reports. */
  lemma ReapKeepsSound(c: Call, s: State, q: Cqe, rest: seq<Cqe>, flying: map<nat, Piece>, done: set<nat>)
    requires Sound(c, s.(cq := [q] + rest), flying, done)
    ensures q.id in flying
    ensures q.result <= flying[q.id].len
    ensures Sound(c, s.(cq := rest), flying - {q.id}, done + Confirmed(flying[q.id], Max(0, q.result)))
    ensures q.result == 0 && c.op.Read? ==> |s.file| <= flying[q.id].fileOff
  {
    ReapIsKnown(c, s, q, rest, flying, done);
    var full := s.(cq := [q] + rest);
    var left := s.(cq := rest);
    var flying' := flying - {q.id};
    forall j: nat | Transferred(c, full, j) || Transferred(c, s, j)
      ensures Transferred(c, left, j)
    {
    }
    forall i | 0 <= i < |rest|
      ensures Reported(c, left, flying', rest[i])
    {
      assert full.cq[i + 1] == rest[i] && rest[i] in rest;
      assert Reported(c, full, flying, full.cq[i + 1]);
    }
    forall i | 0 <= i < |s.sq|
      ensures Matches(c, flying', s.sq[i])
    {
      assert Matches(c, flying, full.sq[i]) && s.sq[i] in s.sq;
    }
    forall i | 0 <= i < |s.live|
      ensures Matches(c, flying', s.live[i])
    {
      assert Matches(c, flying, full.live[i]) && s.live[i] in s.live;
    }
  }

  /** A fully transferred write whose frame held is the overlay. */
  lemma TransferredWriteIsOverlay(c: Call, s: State)
    requires c.op.Write? && Frame(c, s)
    requires forall j: nat :: j < |c.mem0| ==> Transferred(c, s, j)
    ensures s.file == Overlay(c.file0, c.offset, c.mem0)
  {
    var want := Overlay(c.file0, c.offset, c.mem0);
    if c.mem0 != [] {
      assert Transferred(c, s, |c.mem0| - 1);
      assert |s.file| == |want|;
      forall i | 0 <= i < |want|
        ensures s.file[i] == want[i]
      {
        if c.offset <= i < c.offset + |c.mem0| {
          assert Transferred(c, s, i - c.offset);
        }
      }
    }
  }

  // ------------------------------------------------------------------------------------------
  // The loop invariant, and what each step of the loop does to it.

  function Sum(s: seq<int>): int {
    if s == [] then 0 else Sum(s[..|s| - 1]) + s[|s| - 1]
  }

  /** All completions handed back since `base` were positive, and they and the pieces left add up to the buffer. */
  ghost predicate Tally(base: seq<int>, results: seq<int>, work: seq<Piece>, flying: map<nat, Piece>, nextId: nat, len: nat) {
    && base <= results
    && (forall i :: |base| <= i < |results| ==> results[i] > 0)
    && Sum(results[|base|..]) + WorkBytes(work) + FlyingBytes(flying) == len
    && nextId + WorkBytes(work) + FlyingBytes(flying) <= len + |flying|
    && (forall id :: id in flying ==> id < nextId)
  }

  datatype IoResult = Ok | OsError(errno: int) | SubmitError | UnknownUserData | UnexpectedEof

  /** The outcome is exactly what the kernel's answers call for. `end` is the end of the target, `size` that of the file. */
  ghost predicate Explained(op: Op, r: IoResult, end: nat, size: nat, base: seq<int>, results: seq<int>, refusals: int) {
    && base <= results
    && (forall i :: |base| <= i < |results| - (if r.OsError? || r.UnexpectedEof? then 1 else 0) ==> results[i] > 0)
    && (match r
        case Ok => refusals == 0
        case OsError(e) => refusals == 0 && |results| > |base| && results[|results| - 1] == -e < 0
        case SubmitError => refusals == 1
        case UnknownUserData => false
        case UnexpectedEof =>
          refusals == 0 && |results| > |base| && results[|results| - 1] == 0 && (op.Read? ==> size < end))
  }

  /** A call succeeds exactly when the kernel never refused and every answer it gave was a positive count. */
  lemma OkExactlyWhenAnswersPositive(op: Op, r: IoResult, end: nat, size: nat, base: seq<int>, results: seq<int>, refusals: int)
    requires Explained(op, r, end, size, base, results, refusals)
    ensures r.Ok? <==> refusals == 0 && forall i :: |base| <= i < |results| ==> results[i] > 0
  {
    if r.OsError? || r.UnexpectedEof? {
      assert results[|results| - 1] <= 0;
    }
  }

  /** A read of a long enough file fails only if the kernel reports an error. */
  lemma LongEnoughReadSucceeds(r: IoResult, end: nat, size: nat, base: seq<int>, results: seq<int>, refusals: int)
    requires Explained(Read, r, end, size, base, results, refusals)
    requires end <= size && refusals == 0
    requires forall i :: |base| <= i < |results| ==> results[i] >= 0
    ensures r.Ok?
  {
  }

  /** Everything that holds of a call between any two statements of the engine's loop. */
  ghost predicate Steady(c: Call, s: State, work: seq<Piece>, flying: map<nat, Piece>, done: set<nat>,
                         base: seq<int>, results: seq<int>, nextId: nat) {
    && Partition(c, work, flying, done)
    && Sound(c, s, flying, done)
    && Tally(base, results, work, flying, nextId, |c.mem0|)
  }

  lemma StartsSteady(c: Call, s: State, work: seq<Piece>, base: seq<int>)
    requires Partition(c, work, map[], {}) && WorkBytes(work) == |c.mem0|
    requires s == State(c.file0, c.mem0, [], [], [])
    ensures Steady(c, s, work, map[], {}, base, base, 0)
  {
    var none: map<nat, Piece> := map[];
    assert none.Keys == {};
    assert base[|base|..] == [];
  }

  /** No arithmetic is lost when a piece is submitted: its length survives the cast to 32 bits. */
  lemma SubmitIsExact(c: Call, work: seq<Piece>, flying: map<nat, Piece>, done: set<nat>)
    requires Partition(c, work, flying, done)
    requires work != [] && c.chunk < U32_SIZE
    ensures Fits(c, work[0]) && U32(work[0].len) == work[0].len
  {
  }

  /** Submitting: the piece length survives the 32-bit cast, the queue has a free slot, and nothing is lost. */
  lemma SubmitKeepsSteady(c: Call, s: State, work: seq<Piece>, flying: map<nat, Piece>, done: set<nat>,
                          base: seq<int>, results: seq<int>, nextId: nat)
    requires Steady(c, s, work, flying, done, base, results, nextId)
    requires work != [] && c.chunk < U32_SIZE
    ensures U32(work[0].len) == work[0].len
    ensures |s.sq| <= |flying|
    ensures
      var p := work[0];
      var flying' := flying[nextId := p];
      && Steady(c, s.(sq := s.sq + [Sqe(c.op, nextId, p.fileOff, p.bufOff, p.len)]),
                work[1..], flying', done, base, results, nextId + 1)
      && |flying'| == |flying| + 1
      && WorkBytes(work[1..]) + FlyingBytes(flying') == WorkBytes(work) + FlyingBytes(flying)
  {
    hide Partition, WorkBytes, FlyingBytes, Sum, U32;
    SubmitIsExact(c, work, flying, done);
    RingIdsCount(s, flying);
    SubmitKeepsPartition(c, work, flying, done, nextId);
    PushKeepsSound(c, s, flying, done, nextId, work[0]);
    WorkBytesFirst(work);
    FlyingBytesAdd(flying, nextId, work[0]);
  }

  /** Waiting: whatever the kernel does meanwhile, the loop invariant stands. */
  lemma WaitKeepsSteady(c: Call, s: State, t: State, work: seq<Piece>, flying: map<nat, Piece>, done: set<nat>,
                        base: seq<int>, results: seq<int>, nextId: nat)
    requires Steady(c, s, work, flying, done, base, results, nextId) && Reaches(s, t)
    ensures Steady(c, t, work, flying, done, base, results, nextId)
  {
    ReachKeepsSound(c, s, t, flying, done);
  }

  lemma SumPush(base: seq<int>, results: seq<int>, n: int)
    requires base <= results
    ensures Sum((results + [n])[|base|..]) == Sum(results[|base|..]) + n
  {
    assert (results + [n])[|base|..][..|results| - |base|] == results[|base|..];
  }

  /** No arithmetic is lost when a piece advances: 64-bit offsets do not wrap. */
  lemma AdvanceIsExact(c: Call, work: seq<Piece>, flying: map<nat, Piece>, done: set<nat>, id: nat, n: nat)
    requires Partition(c, work, flying, done)
    requires id in flying && n <= flying[id].len && c.offset + |c.mem0| < U64_SIZE
    ensures U64(flying[id].fileOff + n) == flying[id].fileOff + n
  {
    assert Fits(c, flying[id]);
  }

  lemma ReapKeepsTally(base: seq<int>, results: seq<int>, work: seq<Piece>, flying: map<nat, Piece>, nextId: nat, len: nat,
                       id: nat, n: nat)
    requires Tally(base, results, work, flying, nextId, len)
    requires id in flying && 0 < n <= flying[id].len
    ensures Tally(base, results + [n], Requeued(work, flying[id], n), flying - {id}, nextId, len)
    ensures WorkBytes(Requeued(work, flying[id], n)) + FlyingBytes(flying - {id}) == WorkBytes(work) + FlyingBytes(flying) - n
  {
    hide WorkBytes, FlyingBytes, Sum;
    FlyingBytesTake(flying, id);
    WorkBytesPush(work, Remainder(flying[id], n));
    SumPush(base, results, n);
    assert (flying - {id}).Keys == flying.Keys - {id};
  }

  /** Reaping: a positive count confirms that many bytes, requeues the exact remainder, and leaves less to do. */
  lemma ReapKeepsSteady(c: Call, s: State, q: Cqe, rest: seq<Cqe>, work: seq<Piece>, flying: map<nat, Piece>,
                        done: set<nat>, base: seq<int>, results: seq<int>, nextId: nat)
    requires Steady(c, s.(cq := [q] + rest), work, flying, done, base, results, nextId)
    requires q.id in flying && 0 < q.result <= flying[q.id].len
    requires c.offset + |c.mem0| < U64_SIZE
    ensures U64(flying[q.id].fileOff + q.result) == flying[q.id].fileOff + q.result
    ensures Steady(c, s.(cq := rest), Requeued(work, flying[q.id], q.result), flying - {q.id},
                   done + Confirmed(flying[q.id], q.result), base, results + [q.result], nextId)
    ensures WorkBytes(Requeued(work, flying[q.id], q.result)) + FlyingBytes(flying - {q.id})
         == WorkBytes(work) + FlyingBytes(flying) - q.result
  {
    hide Partition, Sound, Tally, U64, Confirmed, WorkBytes, FlyingBytes, Requeued;
    AdvanceIsExact(c, work, flying, done, q.id, q.result);
    ReapKeepsPartition(c, work, flying, done, q.id, q.result);
    ReapKeepsSound(c, s, q, rest, flying, done);
    ReapKeepsTally(base, results, work, flying, nextId, |c.mem0|, q.id, q.result);
  }

  /** Nothing is left in the ring, every byte of the buffer is transferred, and the reported counts add up to the buffer. */
  ghost predicate Complete(c: Call, s: State, base: seq<int>, results: seq<int>) {
    && s.sq == [] && s.live == [] && s.cq == []
    && (forall j: nat :: j < |c.mem0| ==> Transferred(c, s, j))
    && base <= results
    && Sum(results[|base|..]) == |c.mem0|
  }

  /** Whatever still lands, now or later, stays inside the frame of the call. */
  ghost predicate Framed(c: Call, s: State) {
    forall t :: Reaches(s, t) ==> Frame(c, t)
  }

  /** No schedule, now or after the call has given up, touches anything but the target of the call. */
  lemma SoundFrames(c: Call, s: State, flying: map<nat, Piece>, done: set<nat>)
    requires Sound(c, s, flying, done)
    ensures Framed(c, s)
  {
    forall t | Reaches(s, t)
      ensures Frame(c, t)
    {
      ReachKeepsSound(c, s, t, flying, done);
    }
  }

  /**
    At any point of the loop: the ids used so far and the pieces still queued do not outnumber the
    bytes of the call, and giving up here is harmless.
  */
  lemma SteadyMeans(c: Call, s: State, work: seq<Piece>, flying: map<nat, Piece>, done: set<nat>,
                    base: seq<int>, results: seq<int>, nextId: nat)
    requires Steady(c, s, work, flying, done, base, results, nextId)
    ensures nextId + |work| <= |c.mem0|
    ensures |flying| <= FlyingBytes(flying)
    ensures Held(s) == |flying|
    ensures Framed(c, s)
    ensures Explained(c.op, Ok, c.offset + |c.mem0|, |s.file|, base, results, 0)
    ensures Explained(c.op, SubmitError, c.offset + |c.mem0|, |s.file|, base, results, 1)
  {
    PiecesAtMostBytes(c, work, flying);
    RingIdsCount(s, flying);
    SoundFrames(c, s, flying, done);
  }

  /** A completion is always one of ours and never claims more than was asked; one that moves nothing ends the call harmlessly. */
  lemma ReapMeans(c: Call, s: State, q: Cqe, rest: seq<Cqe>, work: seq<Piece>, flying: map<nat, Piece>,
                  done: set<nat>, base: seq<int>, results: seq<int>, nextId: nat)
    requires Steady(c, s.(cq := [q] + rest), work, flying, done, base, results, nextId)
    ensures q.id in flying && q.result <= flying[q.id].len && 0 < flying[q.id].len
    ensures |flying - {q.id}| == |flying| - 1
    ensures Held(s.(cq := rest)) == |flying - {q.id}|
    ensures Framed(c, s.(cq := rest))
    ensures q.result < 0 ==>
              Explained(c.op, OsError(-q.result), c.offset + |c.mem0|, |s.file|, base, results + [q.result], 0)
    ensures q.result == 0 ==>
              Explained(c.op, UnexpectedEof, c.offset + |c.mem0|, |s.file|, base, results + [q.result], 0)
  {
    ReapKeepsSound(c, s, q, rest, flying, done);
    assert Fits(c, flying[q.id]) && (flying - {q.id}).Keys == flying.Keys - {q.id};
    RingIdsCount(s.(cq := rest), flying - {q.id});
    SoundFrames(c, s.(cq := rest), flying - {q.id}, done + Confirmed(flying[q.id], Max(0, q.result)));
  }

  /**
    What the engine makes of one completion: the verdict, the queue and the operations in flight. Ok
    means that the loop goes on.
  */
  function Settle(q: Cqe, work: seq<Piece>, flying: map<nat, Piece>): (IoResult, seq<Piece>, map<nat, Piece>)
    requires q.id in flying ==> q.result <= flying[q.id].len
  {
    if q.id !in flying then (UnknownUserData, work, flying)
    else
      var p := flying[q.id];
      var flying' := flying - {q.id};
      if q.result < 0 then (OsError(-q.result), work, flying')
      else if q.result == p.len then (Ok, work, flying')
      else if q.result == 0 then (UnexpectedEof, work, flying')
      else (Ok, work + [Piece(U64(p.fileOff + q.result), p.bufOff + q.result, p.len - q.result)], flying')
  }

  /**
    Settling a completion of the ring either keeps the loop invariant, with strictly fewer bytes left, or
    ends the call harmlessly with an outcome that the completion calls for. An unknown id never shows up.
  */
  lemma SettleKeepsSteady(c: Call, s: State, q: Cqe, rest: seq<Cqe>, work: seq<Piece>, flying: map<nat, Piece>,
                          done: set<nat>, base: seq<int>, results: seq<int>, nextId: nat)
      returns (done': set<nat>)
    requires Steady(c, s.(cq := [q] + rest), work, flying, done, base, results, nextId)
    requires c.offset + |c.mem0| < U64_SIZE
    ensures q.id in flying && q.result <= flying[q.id].len
    ensures var (r, work', flying') := Settle(q, work, flying);
            && !r.UnknownUserData? && !r.SubmitError?
            && |flying'| < |flying| && |work'| + |flying'| <= |work| + |flying|
            && (r.Ok? ==>
                  && Steady(c, s.(cq := rest), work', flying', done', base, results + [q.result], nextId)
                  && WorkBytes(work') + FlyingBytes(flying') < WorkBytes(work) + FlyingBytes(flying))
            && (!r.Ok? ==>
                  && Framed(c, s.(cq := rest)) && Held(s.(cq := rest)) == |flying'|
                  && Explained(c.op, r, c.offset + |c.mem0|, |s.file|, base, results + [q.result], 0))
  {
    hide Steady, Explained, Framed, WorkBytes, FlyingBytes, U64;
    done' := done;
    ReapMeans(c, s, q, rest, work, flying, done, base, results, nextId);
    if q.result > 0 {
      ReapKeepsSteady(c, s, q, rest, work, flying, done, base, results, nextId);
      done' := done + Confirmed(flying[q.id], q.result);
    }
  }

  /** Nothing queued and nothing in flight: the ring is empty and every byte of the buffer is confirmed. */
  lemma IdleIsComplete(c: Call, s: State, done: set<nat>, base: seq<int>, results: seq<int>, nextId: nat)
    requires Steady(c, s, [], map[], done, base, results, nextId)
    ensures Complete(c, s, base, results)
  {
    var none: map<nat, Piece> := map[];
    RingIdsCount(s, none);
    forall j: nat | j < |c.mem0|
      ensures Transferred(c, s, j)
    {
      assert !Pending([], none, j);
    }
  }
}
