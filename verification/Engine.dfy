/** The io_uring file: chunked, batched transfers with a submit, wait, reap, resubmit loop. */
module Engine {
  import opened Bytes
  import opened Kernel
  import opened Transfer
  import opened Leftovers

  /** An open file's contents. `synced` says that the device holds exactly these contents. */
  class Inode {
    var content: seq<byte>
    var synced: bool

    constructor ()
      ensures content == [] && !synced
    {
      content := [];
      synced := false;
    }
  }

  /**
    The ring over one file. `submitted`, `results` and `refusals` record every entry queued, every result
    handed back and how often the kernel refused to wait; no code reads them.
  */
  class Ring {
    const capacity: nat
    const inode: Inode
    var sq: seq<Sqe>
    var live: seq<Sqe>
    var cq: seq<Cqe>
    ghost var submitted: seq<Sqe>
    ghost var results: seq<int>
    ghost var refusals: nat

    constructor (capacity: nat, inode: Inode)
      ensures this.capacity == capacity && this.inode == inode && submitted == []
      ensures Quiescent()
    {
      this.capacity := capacity;
      this.inode := inode;
      sq, live, cq := [], [], [];
      submitted, results, refusals := [], [], 0;
    }

    ghost predicate Quiescent()
      reads this
    {
      sq == [] && live == [] && cq == []
    }

    /** How many operations the ring holds. */
    ghost function Holding(): nat
      reads this
    {
      |sq| + |live| + |cq|
    }

    function View(mem: seq<byte>): State
      reads this, inode
    {
      State(inode.content, mem, sq, live, cq)
    }

    lemma HoldingIs(mem: seq<byte>)
      ensures Held(View(mem)) == Holding()
    {
    }

    lemma IdleView(mem: seq<byte>)
      requires Quiescent()
      ensures View(mem) == State(inode.content, mem, [], [], [])
    {
    }

    /** The kernel runs for a while: any number of steps, each of them any step it may take. */
    method Churn(buf: array<byte>)
      modifies this`sq, this`live, this`cq, inode`content, buf
      ensures Reaches(old(View(buf[..])), View(buf[..]))
      ensures |cq| >= old(|cq|)
    {
      var steps: nat := *;
      ghost var start := View(buf[..]);
      ReachesSelf(start);
      while steps > 0
        invariant Reaches(start, View(buf[..]))
        invariant |cq| >= old(|cq|)
      {
        ghost var before := View(buf[..]);
        var i: int, d: int, result: int := *, *, *;
        if {
          case sq != [] =>
            sq, live := sq[1..], live + [sq[0]];
            assert Accepts(before, View(buf[..]));
            ReachesStep(start, before, View(buf[..]));
          case 0 <= i < |live| && 0 <= d < live[i].len && live[i].bufOff + d < buf.Length && live[i].op.Write? =>
            inode.content := PutByte(inode.content, live[i].fileOff + d, buf[live[i].bufOff + d]);
            assert MovesByte(before, View(buf[..]), live[i], d);
            ReachesStep(start, before, View(buf[..]));
          case 0 <= i < |live| && 0 <= d < live[i].len && live[i].bufOff + d < buf.Length && live[i].op.Read?
               && live[i].fileOff + d < |inode.content| =>
            buf[live[i].bufOff + d] := inode.content[live[i].fileOff + d];
            assert MovesByte(before, View(buf[..]), live[i], d);
            ReachesStep(start, before, View(buf[..]));
          case 0 <= i < |live| && Reportable(buf, live[i], result) =>
            live, cq := live[..i] + live[i + 1..], cq + [Cqe(live[i].id, result)];
            assert Completes(before, View(buf[..]), i, result);
            ReachesStep(start, before, View(buf[..]));
          case true =>
        }
        steps := steps - 1;
      }
    }

    predicate Reportable(buf: array<byte>, e: Sqe, result: int)
      reads this, inode, buf
      ensures Reportable(buf, e, result) ==> MayReport(View(buf[..]), e, result)
    {
      result < 0 ||
      (&& result <= e.len
       && (forall d: nat :: d < result ==> Agrees(View(buf[..]), e, d))
       && (e.op.Read? && result == 0 && e.len > 0 ==> |inode.content| <= e.fileOff))
    }

    /** Queues an entry unless the submission queue is full. */
    method Push(e: Sqe) returns (ok: bool)
      modifies this`sq, this`submitted
      ensures ok <==> |old(sq)| < capacity
      ensures sq == if ok then old(sq) + [e] else old(sq)
      ensures submitted == old(submitted) + if ok then [e] else []
    {
      ok := |sq| < capacity;
      if ok {
        sq := sq + [e];
        submitted := submitted + [e];
      }
    }

    /** Hands the queue to the kernel and blocks. Success means that something has completed. */
    method SubmitAndWait(buf: array<byte>) returns (ok: bool)
      modifies this`sq, this`live, this`cq, this`refusals, inode`content, buf
      ensures Reaches(old(View(buf[..])), View(buf[..]))
      ensures ok ==> cq != []
      ensures refusals == old(refusals) + if ok then 0 else 1
    {
      Churn(buf);
      ok := *;
      ok := ok && cq != [];
      if !ok {
        refusals := refusals + 1;
      }
    }

    /** Takes the oldest completion, if there is one by now. */
    method NextCompletion(buf: array<byte>) returns (c: Option<Cqe>)
      modifies this`sq, this`live, this`cq, this`results, inode`content, buf
      ensures old(cq) != [] ==> c.Some?
      ensures c.None? ==> Reaches(old(View(buf[..])), View(buf[..])) && cq == [] && results == old(results)
      ensures c.Some? ==>
                && Reaches(old(View(buf[..])), View(buf[..]).(cq := [c.value] + View(buf[..]).cq))
                && results == old(results) + [c.value.result]
    {
      Churn(buf);
      if cq == [] {
        return None;
      }
      c := Some(cq[0]);
      assert cq == [cq[0]] + cq[1..];
      results := results + [cq[0].result];
      cq := cq[1..];
    }
  }

  class IoUringFile {
    const inode: Inode
    const ring: Ring
    const ringSize: nat
    const chunkSize: nat

    /** Wraps a file in a fresh ring. The queue may be rounded up by the kernel but is never smaller than asked. */
    constructor (inode: Inode, ringSize: nat, capacity: nat, chunkSize: nat)
      requires 0 < ringSize <= capacity
      requires 0 < chunkSize < I32_SIZE
      ensures Valid() && ring.Quiescent() && fresh(ring) && ring.capacity == capacity && ring.submitted == []
      ensures this.inode == inode && this.ringSize == ringSize && this.chunkSize == chunkSize
    {
      this.inode := inode;
      this.ring := new Ring(capacity, inode);
      this.ringSize := ringSize;
      this.chunkSize := chunkSize;
    }

    ghost predicate Valid() {
      && ring.inode == inode
      && 0 < ringSize <= ring.capacity
      && 0 < chunkSize < I32_SIZE
    }

    /** Cuts `len` bytes into chunks. */
    method Chunks(offset: nat, len: nat) returns (work: seq<Piece>)
      requires 0 < chunkSize && offset + len < U64_SIZE
      ensures work == Cut(offset, chunkSize, 0, len)
      ensures Tiles(work, offset, chunkSize, len)
      ensures WorkBytes(work) == len
    {
      hide Tiles, WorkBytes;
      work := [];
      var off, pos := offset, 0;
      TilesNone(offset, chunkSize);
      WorkBytesNone();
      while pos < len
        invariant pos <= len && off == offset + pos
        invariant WorkBytes(work) == pos
        invariant Tiles(work, offset, chunkSize, pos)
        invariant work + Cut(offset, chunkSize, pos, len) == Cut(offset, chunkSize, 0, len)
      {
        var take := if len - pos < chunkSize then len - pos else chunkSize;
        TilesPush(work, offset, chunkSize, pos, take);
        WorkBytesPush(work, Piece(off, pos, take));
        assert work + ([Piece(off, pos, take)] + Cut(offset, chunkSize, pos + take, len))
            == work + [Piece(off, pos, take)] + Cut(offset, chunkSize, pos + take, len);
        work := work + [Piece(off, pos, take)];
        off, pos := U64(off + take), pos + take;
      }
    }

    /** Fills the submission queue up to the ring depth. */
    method Fill(op: Op, ghost c: Call, ghost mem: seq<byte>, ghost done: set<nat>, ghost base: seq<int>,
                queued: seq<Piece>, flying: map<nat, Piece>, id: nat)
      returns (work: seq<Piece>, inFlight: map<nat, Piece>, nextId: nat)
      requires Valid() && c.op == op && c.chunk == chunkSize && |flying| <= ringSize
      requires Steady(c, ring.View(mem), queued, flying, done, base, ring.results, id)
      modifies ring`sq, ring`submitted
      ensures Steady(c, ring.View(mem), work, inFlight, done, base, ring.results, nextId)
      ensures WorkBytes(work) + FlyingBytes(inFlight) == WorkBytes(queued) + FlyingBytes(flying)
      ensures work == [] || |inFlight| == ringSize
      ensures |inFlight| <= ringSize
      ensures nextId - id == |ring.submitted| - |old(ring.submitted)|
      ensures old(ring.sq) <= ring.sq && ring.submitted == old(ring.submitted) + ring.sq[|old(ring.sq)|..]
      ensures (ring.sq, work, inFlight, nextId) == Filled(op, ringSize, old(ring.sq), queued, flying, id)
      ensures |work| + |inFlight| == |queued| + |flying|
    {
      hide Steady, WorkBytes, FlyingBytes, U32;
      work, inFlight, nextId := queued, flying, id;
      while |inFlight| < ringSize
        invariant Steady(c, ring.View(mem), work, inFlight, done, base, ring.results, nextId)
        invariant |inFlight| <= ringSize
        invariant nextId - id == |ring.submitted| - |old(ring.submitted)|
        invariant old(ring.sq) <= ring.sq && ring.submitted == old(ring.submitted) + ring.sq[|old(ring.sq)|..]
        invariant Filled(op, ringSize, ring.sq, work, inFlight, nextId)
               == Filled(op, ringSize, old(ring.sq), queued, flying, id)
        invariant |work| + |inFlight| == |queued| + |flying|
        invariant WorkBytes(work) + FlyingBytes(inFlight) == WorkBytes(queued) + FlyingBytes(flying)
        decreases |work|
      {
        if work == [] {
          break;
        }
        SubmitKeepsSteady(c, ring.View(mem), work, inFlight, done, base, ring.results, nextId);
        var piece := work[0];
        work := work[1..];
        var pushed := ring.Push(Sqe(op, nextId, piece.fileOff, piece.bufOff, U32(piece.len)));
        if pushed {
          inFlight := inFlight[nextId := piece];
          nextId := nextId + 1;
        } else {
          assert false;
          work := [piece] + work;
          break;
        }
      }
    }

    /** Submits, blocks until at least one completion lands, then drains: confirms what was moved and requeues what was not. */
    method Reap(ghost c: Call, buf: array<byte>, ghost confirmed: set<nat>, ghost base: seq<int>,
                queued: seq<Piece>, flying: map<nat, Piece>, ghost nextId: nat)
      returns (r: IoResult, work: seq<Piece>, inFlight: map<nat, Piece>, ghost done: set<nat>)
      requires Valid() && c.offset + |c.mem0| < U64_SIZE
      requires Steady(c, ring.View(buf[..]), queued, flying, confirmed, base, ring.results, nextId)
      requires flying != map[]
      modifies ring`sq, ring`live, ring`cq, ring`results, ring`refusals, inode`content, buf
      ensures r.Ok? ==>
                && Steady(c, ring.View(buf[..]), work, inFlight, done, base, ring.results, nextId)
                && |inFlight| <= |flying| && |work| + |inFlight| <= |queued| + |flying|
                && WorkBytes(work) + FlyingBytes(inFlight) < WorkBytes(queued) + FlyingBytes(flying)
                && ring.refusals == old(ring.refusals)
      ensures r.SubmitError? ==> ring.Holding() > 0
      ensures r.OsError? || r.UnexpectedEof? ==> ring.Holding() < |flying|
      ensures !r.Ok? ==>
                && Framed(c, ring.View(buf[..]))
                && Explained(c.op, r, c.offset + |c.mem0|, |ring.View(buf[..]).file|, base, ring.results,
                             ring.refusals - old(ring.refusals))
    {
      hide Steady, Framed, Reaches, FlyingBytes, WorkBytes, Ring.View, Explained, Settle;
      work, inFlight, done := queued, flying, confirmed;
      ghost var left := WorkBytes(work) + FlyingBytes(inFlight);
      ghost var before := ring.View(buf[..]);
      var ok := ring.SubmitAndWait(buf);
      WaitKeepsSteady(c, before, ring.View(buf[..]), work, inFlight, done, base, ring.results, nextId);
      if !ok {
        SteadyMeans(c, ring.View(buf[..]), work, inFlight, done, base, ring.results, nextId);
        ring.HoldingIs(buf[..]);
        return SubmitError, work, inFlight, done;
      }
      while true
        invariant Steady(c, ring.View(buf[..]), work, inFlight, done, base, ring.results, nextId)
        invariant |inFlight| <= |flying| && |work| + |inFlight| <= |queued| + |flying| && ring.refusals == old(ring.refusals)
        invariant WorkBytes(work) + FlyingBytes(inFlight) < left || (WorkBytes(work) + FlyingBytes(inFlight) == left && ring.cq != [])
        decreases |inFlight|
      {
        ghost var s, results := ring.View(buf[..]), ring.results;
        var cqe := ring.NextCompletion(buf);
        ghost var t := ring.View(buf[..]);
        if cqe.None? {
          WaitKeepsSteady(c, s, t, work, inFlight, done, base, results, nextId);
          return Ok, work, inFlight, done;
        }
        assert t.(cq := t.cq) == t;
        WaitKeepsSteady(c, s, t.(cq := [cqe.value] + t.cq), work, inFlight, done, base, results, nextId);
        done := SettleKeepsSteady(c, t, cqe.value, t.cq, work, inFlight, done, base, results, nextId);
        var (verdict, requeued, remaining) := Settle(cqe.value, work, inFlight);
        work, inFlight := requeued, remaining;
        if !verdict.Ok? {
          ring.HoldingIs(buf[..]);
          return verdict, work, inFlight, done;
        }
      }
    }

    /** The submit, wait, reap, resubmit loop shared by reads and writes. */
    method Drive(op: Op, buf: array<byte>, pieces: seq<Piece>, ghost offset: nat) returns (r: IoResult)
      requires Valid() && ring.Quiescent()
      requires offset + buf.Length < U64_SIZE
      requires Partition(Call(op, offset, chunkSize, inode.content, buf[..]), pieces, map[], {})
      requires WorkBytes(pieces) == buf.Length
      modifies ring, inode`content, buf
      ensures buf.Length == 0 ==> r.Ok?
      ensures old(ring.submitted) + Filled(op, ringSize, [], pieces, map[], 0).0 <= ring.submitted
      ensures r.SubmitError? ==> !ring.Quiescent()
      ensures (r.OsError? || r.UnexpectedEof?) && (|pieces| <= 1 || ringSize == 1) ==> ring.Quiescent()
      ensures r.Ok? ==> Complete(Call(op, offset, chunkSize, old(inode.content), old(buf[..])), ring.View(buf[..]),
                                 old(ring.results), ring.results)
      ensures Framed(Call(op, offset, chunkSize, old(inode.content), old(buf[..])), ring.View(buf[..]))
      ensures Explained(op, r, offset + buf.Length, |ring.View(buf[..]).file|, old(ring.results), ring.results,
                        ring.refusals - old(ring.refusals))
      ensures |ring.submitted| - |old(ring.submitted)| <= buf.Length
    {
      hide Steady, Partition, Framed, Complete, Reaches, FlyingBytes, WorkBytes, Explained, Ring.View, Filled;
      ghost var c := Call(op, offset, chunkSize, inode.content, buf[..]);
      ghost var done, base: seq<int> := {}, ring.results;
      var work := pieces;
      var inFlight: map<nat, Piece> := map[];
      var nextId := 0;
      ring.IdleView(buf[..]);
      FlyingBytesNone();
      StartsSteady(c, ring.View(buf[..]), work, base);
      ghost var first := old(ring.submitted) + Filled(op, ringSize, [], pieces, map[], 0).0;
      while true
        invariant Steady(c, ring.View(buf[..]), work, inFlight, done, base, ring.results, nextId)
        invariant |inFlight| <= ringSize
        invariant first <= ring.submitted
               || (ring.Quiescent() && ring.submitted == old(ring.submitted) && (work, inFlight, nextId) == (pieces, map[], 0))
        invariant nextId == |ring.submitted| - |old(ring.submitted)|
        invariant |work| + |inFlight| <= |pieces|
        invariant WorkBytes(work) + FlyingBytes(inFlight) <= buf.Length
        invariant ring.refusals == old(ring.refusals)
        decreases WorkBytes(work) + FlyingBytes(inFlight)
      {
        work, inFlight, nextId := Fill(op, c, buf[..], done, base, work, inFlight, nextId);
        if inFlight == map[] {
          SteadyMeans(c, ring.View(buf[..]), work, inFlight, done, base, ring.results, nextId);
          IdleIsComplete(c, ring.View(buf[..]), done, base, ring.results, nextId);
          return Ok;
        }
        SteadyMeans(c, ring.View(buf[..]), work, inFlight, done, base, ring.results, nextId);
        r, work, inFlight, done := Reap(c, buf, done, base, work, inFlight, nextId);
        if !r.Ok? {
          return r;
        }
      }
    }

    /** Writes all of `data` at `offset`. Needs an idle ring: see the note on reuse after an error. */
    method WriteAllAt(offset: nat, data: seq<byte>) returns (r: IoResult)
      requires Valid() && ring.Quiescent()
      requires offset + |data| < U64_SIZE
      modifies ring, inode`content
      ensures data == [] ==> r.Ok?
      ensures old(ring.submitted) + Filled(Write, ringSize, [], Cut(offset, chunkSize, 0, |data|), map[], 0).0 <= ring.submitted
      ensures r.SubmitError? ==> !ring.Quiescent()
      ensures (r.OsError? || r.UnexpectedEof?) && (|data| <= chunkSize || ringSize == 1) ==> ring.Quiescent()
      ensures r.Ok? ==> ring.Quiescent() && inode.content == Overlay(old(inode.content), offset, data)
      ensures forall t :: Reaches(ring.View(data), t) ==>
                t.mem == data && WriteFrame(old(inode.content), t.file, offset, data)
      ensures Explained(Write, r, offset + |data|, |inode.content|, old(ring.results), ring.results,
                        ring.refusals - old(ring.refusals))
      ensures r.Ok? ==> Sum(ring.results[|old(ring.results)|..]) == |data|
      ensures |ring.submitted| - |old(ring.submitted)| <= |data|
    {
      hide Filled, Cut, Explained;
      var buf := new byte[|data|](i requires 0 <= i < |data| => data[i]);
      assert buf[..] == data;
      ghost var c := Call(Write, offset, chunkSize, inode.content, data);
      var work := Chunks(offset, |data|);
      CutCount(offset, chunkSize, |data|);
      TilesPartition(c, work);
      r := Drive(Write, buf, work, offset);
      ReachesSelf(ring.View(buf[..]));
      assert buf[..] == data by {
        assert Frame(c, ring.View(buf[..]));
      }
      if r.Ok? {
        TransferredWriteIsOverlay(c, ring.View(buf[..]));
      }
    }

    /** Reads exactly `buf.Length` bytes at `offset`, or reports why it could not. */
    method ReadAllAt(offset: nat, buf: array<byte>) returns (r: IoResult)
      requires Valid() && ring.Quiescent()
      requires offset + buf.Length < U64_SIZE
      modifies ring, inode`content, buf
      ensures inode.content == old(inode.content)
      ensures buf.Length == 0 ==> r.Ok?
      ensures old(ring.submitted) + Filled(Read, ringSize, [], Cut(offset, chunkSize, 0, buf.Length), map[], 0).0 <= ring.submitted
      ensures r.SubmitError? ==> !ring.Quiescent()
      ensures (r.OsError? || r.UnexpectedEof?) && (buf.Length <= chunkSize || ringSize == 1) ==> ring.Quiescent()
      ensures r.Ok? ==>
                && ring.Quiescent()
                && (buf.Length > 0 ==> offset + buf.Length <= |inode.content|
                                       && buf[..] == inode.content[offset..offset + buf.Length])
      ensures ReadFrame(old(buf[..]), buf[..], inode.content, offset)
      ensures Explained(Read, r, offset + buf.Length, |inode.content|, old(ring.results), ring.results,
                        ring.refusals - old(ring.refusals))
      ensures r.Ok? ==> Sum(ring.results[|old(ring.results)|..]) == buf.Length
      ensures |ring.submitted| - |old(ring.submitted)| <= buf.Length
    {
      hide Filled, Cut, Explained;
      ghost var c := Call(Read, offset, chunkSize, inode.content, buf[..]);
      var work := Chunks(offset, buf.Length);
      CutCount(offset, chunkSize, buf.Length);
      TilesPartition(c, work);
      r := Drive(Read, buf, work, offset);
      ReachesSelf(ring.View(buf[..]));
      assert Frame(c, ring.View(buf[..]));
      if r.Ok? && buf.Length > 0 {
        assert Transferred(c, ring.View(buf[..]), buf.Length - 1);
        forall j | 0 <= j < buf.Length
          ensures buf[..][j] == inode.content[offset..offset + buf.Length][j]
        {
          assert Transferred(c, ring.View(buf[..]), j);
        }
      }
    }
  }

  /** A file after a list of positioned writes, first to last. */
  function OverlayAll(file: seq<byte>, calls: seq<(nat, seq<byte>)>): seq<byte> {
    if calls == [] then file
    else
      var last := calls[|calls| - 1];
      Overlay(OverlayAll(file, calls[..|calls| - 1]), last.0, last.1)
  }

  predicate Hits(call: (nat, seq<byte>), i: nat) {
    call.0 <= i < call.0 + |call.1|
  }

  lemma OneMoreWrite(file: seq<byte>, call: (nat, seq<byte>), i: nat)
    ensures
      var now := Overlay(file, call.0, call.1);
      && |file| <= |now|
      && (Hits(call, i) ==> i < |now| && now[i] == call.1[i - call.0])
      && (!Hits(call, i) && i < |now| ==> now[i] == if i < |file| then file[i] else 0)
  {
    OverlayMeans(file, call.0, call.1);
  }

  /** After a list of writes each byte is that of the last write that hits it; one that none hits is old, or a hole zero. */
  lemma {:induction false} LastWriteOfAByteWins(file: seq<byte>, calls: seq<(nat, seq<byte>)>, i: nat)
    ensures forall k :: 0 <= k < |calls| && Hits(calls[k], i) && (forall n :: k < n < |calls| ==> !Hits(calls[n], i)) ==>
              i < |OverlayAll(file, calls)| && OverlayAll(file, calls)[i] == calls[k].1[i - calls[k].0]
    ensures (forall n :: 0 <= n < |calls| ==> !Hits(calls[n], i)) && i < |OverlayAll(file, calls)| ==>
              OverlayAll(file, calls)[i] == if i < |file| then file[i] else 0
    ensures |file| <= |OverlayAll(file, calls)|
    decreases |calls|
  {
    if calls != [] {
      var before, last := calls[..|calls| - 1], calls[|calls| - 1];
      hide Overlay;
      LastWriteOfAByteWins(file, before, i);
      OneMoreWrite(OverlayAll(file, before), last, i);
      assert forall k :: 0 <= k < |before| ==> before[k] == calls[k];
    }
  }

  /**
    Any number of calls on one handle: as long as each returns Ok, the next may reuse the ring, and the
    file is the composition of the writes although ids start again at 0 every time.
  */
  method WriteSequence(f: IoUringFile, calls: seq<(nat, seq<byte>)>) returns (r: IoResult)
    requires f.Valid() && f.ring.Quiescent()
    requires forall i :: 0 <= i < |calls| ==> calls[i].0 + |calls[i].1| < U64_SIZE
    modifies f.ring, f.inode`content
    ensures r.Ok? ==> f.ring.Quiescent() && f.inode.content == OverlayAll(old(f.inode.content), calls)
  {
    r := Ok;
    for k := 0 to |calls|
      invariant r.Ok? && f.ring.Quiescent()
      invariant f.inode.content == OverlayAll(old(f.inode.content), calls[..k])
    {
      assert calls[..k + 1][..k] == calls[..k];
      r := f.WriteAllAt(calls[k].0, calls[k].1);
      if !r.Ok? {
        return;
      }
    }
    assert calls[..|calls|] == calls;
  }

  /** What is written through one ring is read back through another. */
  method WriteThenRead(inode: Inode, offset: nat, data: seq<byte>, ringSize: nat, chunkSize: nat)
    returns (w: IoResult, r: IoResult, buf: array<byte>)
    requires 0 < ringSize && 0 < chunkSize < I32_SIZE && offset + |data| < U64_SIZE
    modifies inode`content
    ensures w.Ok? && r.Ok? ==> buf[..] == data
    ensures w.Ok? ==> !r.UnexpectedEof?
  {
    var writer := new IoUringFile(inode, ringSize, ringSize, chunkSize);
    w := writer.WriteAllAt(offset, data);
    buf := new byte[|data|](_ => 0);
    var reader := new IoUringFile(inode, ringSize, ringSize, chunkSize);
    r := reader.ReadAllAt(offset, buf);
    if w.Ok? && data != [] {
      OverlayReadsBack(old(inode.content), offset, data);
    }
  }
}
