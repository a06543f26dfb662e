/** CProtocolComm: the receive event, the packet queue, and sending with repetition. */
module Comm {
  import opened Bytes
  import opened Buffers
  import opened Packets
  import opened Stream

  const RESEND_COUNT := 3

  function Wires(q: seq<Image>): (w: seq<seq<byte>>)
    ensures |w| == |q|
  {
    seq(|q|, i requires 0 <= i < |q| => Wire(q[i]))
  }

  function Joined(batches: seq<seq<Image>>): seq<Image> {
    if batches == [] then [] else batches[0] + Joined(batches[1..])
  }

  function Copies(f: seq<byte>, n: nat): (s: seq<seq<byte>>)
    ensures |s| == n
  {
    seq(n, _ => f)
  }

  ghost predicate AllFrames(q: seq<Image>) {
    forall p | p in q :: IsFrame(p)
  }

  /** What `GetPacket` does: nothing yet, a packet, or an exception. */
  datatype Taken = NoPacket | GotPacket | Threw

  /** `PacketVaild`: false, true, or an exception. */
  method PacketVaild(b: Buffer) returns (v: Verdict)
    requires b.Valid()
    ensures v == Judge(b.Contents())
  {
    hide Sum;
    var s := b.Contents();
    if |s| > 0 {
      if |s| < 2 {
        return NeedMore;
      }
      if s[0] == HEAD0 && s[1] == HEAD1 {
        if |s| >= PACKET_MINLEN && |s| >= FrameLen(s) {
          var len := LengthByte(s);
          if Sum(s[2..len + 2]) == s[len + 2] && s[len + 3] == PACKET_END {
            return Ready;
          }
        } else {
          return NeedMore;
        }
      }
      return Broken;
    } else {
      return NeedMore;
    }
  }

  /** `GetPacket`: the frame at the front is copied into `packet` and deleted from the buffer. */
  method GetPacket(b: Buffer, packet: Packet) returns (t: Taken)
    requires b.Valid() && packet.Valid() && b.buf != packet.mem
    modifies b`curPos, b.buf, packet.mem
    ensures b.Valid()
    ensures t == match old(Judge(b.Contents())) case NeedMore => NoPacket case Ready => GotPacket case Broken => Threw
    ensures t == GotPacket ==>
      && b.Contents() == old(b.Contents()[FrameLen(b.Contents())..])
      && packet.Memory() == Received(old(packet.Memory()), old(Wire(b.Contents())))
    ensures t != GotPacket ==> b.Contents() == old(b.Contents())
  {
    hide Judge, IsFrame, Sum;
    var v := PacketVaild(b);
    if v == Broken {
      return Threw;
    }
    if v == NeedMore {
      return NoPacket;
    }
    var s := b.Contents();
    var n := FrameLen(s);
    forall i | 0 <= i < n {
      packet.mem[i] := s[i];
    }
    assert packet.Memory() == Received(old(packet.Memory()), Wire(s));
    var _ := b.Del(n);
    return GotPacket;
  }

  /** A received packet is the frame that was on the line. */
  lemma ReceivedIsFrame(stale: Image, s: seq<byte>)
    requires IsFrame(s)
    ensures |Wire(s)| <= STRUCT_SIZE
    ensures IsFrame(Received(stale, Wire(s))) && Wire(Received(stale, Wire(s))) == Wire(s)
  {
    WireIsFrame(s);
    FrameStable(Wire(s), stale[|Wire(s)|..]);
    assert Wire(s)[..|Wire(s)|] == Wire(s);
  }

  class ProtocolComm {
    const buffer: Buffer
    const packet: Packet
    var queue: seq<Image>
    var resend: bool

    // The surroundings: packets the receiving thread pushes during the next waits on an empty
    // queue, the results of the next writes, and the frames handed to the serial line so far.
    var arrivals: seq<seq<Image>>
    var writeResults: seq<bool>
    var written: seq<seq<byte>>

    ghost predicate Valid()
      reads this, buffer, buffer.buf, packet
    {
      && buffer.Valid() && packet.Valid() && buffer.buf != packet.mem
      && Judge(buffer.Contents()) == NeedMore
      && AllFrames(queue) && AllFrames(Joined(arrivals))
    }

    constructor (stale: Image)
      ensures Valid() && fresh(buffer) && fresh(buffer.buf) && fresh(packet) && fresh(packet.mem)
      ensures queue == [] && !resend && arrivals == [] && written == []
      ensures buffer.maxSize == DEFAULT_SIZE && buffer.Contents() == []
    {
      buffer := new Buffer(DEFAULT_SIZE);
      packet := new Packet(stale);
      queue, resend, arrivals, writeResults, written := [], false, [], [], [];
    }

    /**
     The receive event: `nLen` bytes were announced, `pending` is what the driver holds, and as
     much of it is read as there is room for. An exception clears the buffer.
     */
    method OnReceive(nLen: nat, pending: seq<byte>) returns (taken: nat)
      requires Valid()
      requires nLen > MAX_ANNOUNCED && buffer.FreeSize() < nLen ==> GrownSize(buffer.maxSize, nLen) <= INT_MAX
      modifies this`queue, buffer, buffer.buf
      ensures Valid() && (buffer.buf == old(buffer.buf) || fresh(buffer.buf))
      ensures buffer.maxSize == old(buffer.maxSize) || buffer.maxSize <= Capacity(nLen)
      ensures taken <= |pending| && (nLen <= |pending| ==> nLen <= taken)
      ensures var d := Drain(old(buffer.Contents()) + pending[..taken]);
        && buffer.Contents() == d.rest
        && Wires(queue) == old(Wires(queue)) + d.frames
    {
      hide Judge, IsFrame, Sum, Drain, Wire;
      MakeRoom(nLen);
      var len := buffer.FreeSize();
      taken := if len < |pending| then len else |pending|;
      buffer.Write(pending[..taken]);
      if taken == 0 {
        DrainStep(buffer.Contents());
        assert buffer.Contents() + pending[..0] == buffer.Contents();
        return;
      }
      ghost var s := buffer.Contents() + pending[..taken];
      assert buffer.buf[..buffer.curPos + taken] == s;
      buffer.MovePos(taken);
      ParseAll(s);
    }

    /** The growing of the buffer in the receive event. */
    method MakeRoom(nLen: nat)
      requires Valid()
      requires nLen > MAX_ANNOUNCED && buffer.FreeSize() < nLen ==> GrownSize(buffer.maxSize, nLen) <= INT_MAX
      modifies buffer`buf, buffer`maxSize
      ensures Valid() && (buffer.buf == old(buffer.buf) || fresh(buffer.buf))
      ensures buffer.Contents() == old(buffer.Contents()) && buffer.FreeSize() >= nLen
      ensures buffer.maxSize == old(buffer.maxSize) || buffer.maxSize <= Capacity(nLen)
    {
      hide Judge, IsFrame, GrownSize;
      if buffer.FreeSize() < nLen {
        WaitingIsShort(buffer.Contents());
        GrowthBounded(buffer.maxSize, buffer.curPos, nLen);
        var _ := buffer.Realloc(nLen);
      }
    }

    /**
     The receiving thread: one event after the other, as long as there are any. With announced
     lengths of at most `limit` the buffer never outgrows `Capacity(limit)`, however long it runs.
     */
    method Receive(events: seq<(nat, seq<byte>)>, ghost limit: nat) returns (ghost chunks: seq<seq<byte>>)
      requires Valid() && limit <= MAX_ANNOUNCED
      requires forall e | e in events :: e.0 <= limit
      modifies this`queue, buffer, buffer.buf
      ensures Valid() && (buffer.buf == old(buffer.buf) || fresh(buffer.buf))
      ensures buffer.maxSize == old(buffer.maxSize) || buffer.maxSize <= Capacity(limit)
      ensures |chunks| == |events| && forall i | 0 <= i < |events| :: chunks[i] <= events[i].1
      ensures var d := Reception(old(buffer.Contents()), chunks);
        buffer.Contents() == d.rest && Wires(queue) == old(Wires(queue)) + d.frames
    {
      hide Judge, IsFrame, Sum, Drain, Wire, Wires, Joined;
      chunks := [];
      for i := 0 to |events|
        invariant Valid() && (buffer.buf == old(buffer.buf) || fresh(buffer.buf))
        invariant buffer.maxSize == old(buffer.maxSize) || buffer.maxSize <= Capacity(limit)
        invariant |chunks| == i && forall j | 0 <= j < i :: chunks[j] <= events[j].1
        invariant var d := Reception(old(buffer.Contents()), chunks);
          buffer.Contents() == d.rest && Wires(queue) == old(Wires(queue)) + d.frames
      {
        assert events[i] in events;
        var nLen, pending := events[i].0, events[i].1;
        var taken := 0;
        ghost var before := buffer.Contents();
        if nLen > 0 {
          taken := OnReceive(nLen, pending);
        } else {
          NothingReceived(before, pending);
        }
        ReceptionSnoc(old(buffer.Contents()), chunks, pending[..taken]);
        chunks := chunks + [pending[..taken]];
      }
    }

    /** The loop of the receive event over the buffered bytes `s`. */
    method ParseAll(ghost s: seq<byte>)
      requires buffer.Valid() && packet.Valid() && buffer.buf != packet.mem
      requires AllFrames(queue) && AllFrames(Joined(arrivals))
      requires buffer.Contents() == s
      modifies this`queue, buffer`curPos, buffer.buf
      ensures Valid()
      ensures buffer.Contents() == Drain(s).rest
      ensures Wires(queue) == old(Wires(queue)) + Drain(s).frames
    {
      hide Judge, IsFrame, Sum, Drain, Wire;
      var stale: Image := *;
      var local := new Packet(stale);
      ghost var done: seq<seq<byte>> := [];
      while true
        invariant buffer.Valid() && local.Valid() && buffer.buf == old(buffer.buf)
        invariant fresh(local.mem)
        invariant AllFrames(queue)
        invariant Wires(queue) == old(Wires(queue)) + done
        invariant Drain(s) == Prefixed(done, Drain(buffer.Contents()))
        decreases |buffer.Contents()|
      {
        ghost var before, prev := buffer.Contents(), local.Memory();
        DrainStep(before);
        var t := GetPacket(buffer, local);
        if t == GotPacket {
          ReceivedIsFrame(prev, before);
          var image := local.Memory();
          PushWire(queue, image);
          queue := queue + [image];
          PrefixedMore(done, Wire(before), Drain(buffer.Contents()));
          done := done + [Wire(before)];
        } else {
          if t == Threw {
            buffer.Clear();
            EmptyWaits();
          }
          break;
        }
      }
    }

    /** Everything a thread could still pop: the queue and what arrives during later waits. */
    ghost function Upcoming(): seq<Image>
      reads this
    {
      queue + Joined(arrivals)
    }

    /** `JobQueue::WaitPop`: a wait on the empty queue lets the receiving thread push once. */
    method WaitPop() returns (r: Option<Image>)
      modifies this`queue, this`arrivals
      ensures var waits := old(queue) == [] && old(arrivals) != [];
        var q := if waits then old(arrivals)[0] else old(queue);
        && arrivals == (if waits then old(arrivals)[1..] else old(arrivals))
        && (if q == [] then r == None && queue == [] else r == Some(q[0]) && queue == q[1..])
    {
      if queue == [] {
        if arrivals == [] {
          return None;
        }
        queue := arrivals[0];
        arrivals := arrivals[1..];
      }
      if queue != [] {
        r := Some(queue[0]);
        queue := queue[1..];
      } else {
        r := None;
      }
    }

    /** `WaitPopLast`: everything there is and everything that comes meanwhile, but only the last is kept. */
    method WaitPopLast() returns (r: Option<Image>)
      modifies this`queue, this`arrivals
      ensures queue == []
      ensures Swept(r, arrivals) == Sweep(None, old(queue), old(arrivals))
    {
      r := WaitPop();
      if r.None? {
        return;
      }
      while true
        invariant r.Some? && Sweep(r, queue, arrivals) == Sweep(None, old(queue), old(arrivals))
        decreases |arrivals|, |queue|
      {
        var next := WaitPop();
        if next.None? {
          break;
        }
        r := next;
      }
    }

    method Write(f: seq<byte>) returns (ok: bool)
      modifies this`written, this`writeResults
      ensures written == old(written) + [f]
      ensures ok == WriteSucceeds(old(writeResults))
    {
      written := written + [f];
      ok := true;
      if writeResults != [] {
        ok := writeResults[0];
        writeResults := writeResults[1..];
      }
    }

    /** `SendFrame` from its parts: the queue is emptied first unless the caller objects. */
    method SendFrame(src: byte, dest: byte, ty: byte, fun: byte, data: Option<seq<byte>>, clearQueue: bool)
      returns (ok: bool)
      requires packet.Valid() && |Block(data)| < 256
      modifies this`queue, this`written, this`writeResults, packet.mem
      ensures ok == WriteSucceeds(old(writeResults))
      ensures queue == if clearQueue then [] else old(queue)
      ensures packet.Memory() == Built(old(packet.Memory()), src, dest, ty, fun, data)
      ensures written == old(written) + [Wire(packet.Memory())]
    {
      if clearQueue {
        queue := [];
      }
      var n := packet.BuildPacket(src, dest, ty, fun, data);
      ok := Write(packet.Memory()[..n]);
    }

    /**
     `WaitResponse`: while repetition is enabled, two silent waits repeat the frame that was
     sent last, unchanged, and the third gives up; otherwise there is one wait and no repeat.
     */
    method WaitResponse() returns (r: Option<Image>, ghost repeats: nat)
      requires packet.Valid()
      modifies this`queue, this`arrivals, this`written, this`writeResults
      ensures var max := if resend then RESEND_COUNT else 1;
        var w := Await(old(queue), old(arrivals), max);
        && r == w.answer && arrivals == w.arrivals
        && repeats == if r.None? then max - 1 else w.silent
      ensures written == old(written) + Copies(Wire(packet.Memory()), repeats)
      ensures queue == []
    {
      hide Await, Sweep, Wire, Copies;
      repeats := 0;
      OneMoreCopy(Wire(packet.Memory()), 0);
      AwaitStep(queue, arrivals, if resend then RESEND_COUNT else 1);
      r := WaitPopLast();
      if resend {
        var count := RESEND_COUNT;
        while r.None?
          invariant 1 <= count <= RESEND_COUNT && repeats == RESEND_COUNT - count
          invariant written == old(written) + Copies(Wire(packet.Memory()), repeats)
          invariant queue == []
          invariant Await(old(queue), old(arrivals), RESEND_COUNT)
            == if r.None? then Later(Await([], arrivals, count - 1), repeats + 1) else Response(r, arrivals, repeats)
          decreases count, r.None?
        {
          count := count - 1;
          AwaitStep([], arrivals, count);
          if count <= 0 {
            return;
          }
          OneMoreCopy(Wire(packet.Memory()), repeats);
          repeats := repeats + 1;
          r := Repeat();
        }
      } else {
        AwaitStep([], arrivals, 0);
      }
    }

    /** The frame is sent once more and another wait begins. */
    method Repeat() returns (r: Option<Image>)
      requires packet.Valid() && queue == []
      modifies this`queue, this`arrivals, this`written, this`writeResults
      ensures queue == []
      ensures Swept(r, arrivals) == Sweep(None, [], old(arrivals))
      ensures written == old(written) + [Wire(packet.Memory())]
    {
      hide Sweep;
      var _ := Write(packet.Memory()[..FrameLen(packet.Memory())]);
      r := WaitPopLast();
    }

    /**
     `SendResponseFrame`: a response to request `requestId` is withheld when a different request
     has come in meanwhile, and that newest request goes back into the queue.
     */
    method SendResponseFrame(requestId: byte, p: Image) returns (ok: bool)
      requires packet.Valid()
      modifies this`queue, this`arrivals, this`written, this`writeResults, packet.mem
      ensures var w := Sweep(None, old(queue), old(arrivals));
        var withheld := w.last.Some? && PacketId(w.last.value) != requestId;
        && arrivals == w.arrivals
        && queue == (if withheld then [w.last.value] else [])
        && (withheld ==> !ok && written == old(written))
        && (!withheld ==>
              var q := Built(old(packet.Memory()), Src(p), Dest(p), Type(p), Fun(p), Some(Carried(p)));
              ok == WriteSucceeds(old(writeResults)) && written == old(written) + [Wire(q)])
    {
      hide Sweep;
      var remain := WaitPopLast();
      if remain.Some? && PacketId(remain.value) != requestId {
        queue := queue + [remain.value];
        return false;
      }
      ok := SendFrame(Src(p), Dest(p), Type(p), Fun(p), Some(Carried(p)), false);
    }
  }

  /** The result of the next write; with no more results given, writes succeed. */
  predicate WriteSucceeds(results: seq<bool>) {
    results == [] || results[0]
  }

  // ----- waiting -----

  /** The packet a sweep ended with, and what the receiving thread has still to push. */
  datatype Swept = Swept(last: Option<Image>, arrivals: seq<seq<Image>>)

  /** Popping until a wait brings nothing; `last` was popped before. */
  function Sweep(last: Option<Image>, queue: seq<Image>, arrivals: seq<seq<Image>>): Swept
    decreases |arrivals|
  {
    var popped := if queue == [] then last else Newest(queue);
    if arrivals == [] then Swept(popped, [])
    else if arrivals[0] == [] then Swept(popped, arrivals[1..])
    else Sweep(popped, arrivals[0], arrivals[1..])
  }

  /** With no pushes meanwhile, the newest packet of the queue. */
  lemma SweepAlone(queue: seq<Image>)
    ensures Sweep(None, queue, []) == Swept(Newest(queue), [])
  {
  }

  /** `SendResponseFrame` with no pushes meanwhile is the atomic step of the request queue. */
  lemma RespondsAtomically(queue: seq<Image>, requestId: byte)
    ensures var w := Sweep(None, queue, []);
      var withheld := w.last.Some? && PacketId(w.last.value) != requestId;
      && (withheld <==> Withheld(queue, requestId))
      && RespondQueue(queue, requestId) == if withheld then [w.last.value] else []
  {
    hide PacketId;
    SweepAlone(queue);
  }

  /** What a sweep could still return, in order: the packet in hand, the queue, later pushes. */
  function InHand(last: Option<Image>): seq<Image> {
    if last.Some? then [last.value] else []
  }

  /** Everything before the packet that is kept was popped too; nothing behind it is lost. */
  lemma {:induction false} SweepTakesLast(last: Option<Image>, queue: seq<Image>, arrivals: seq<seq<Image>>)
    ensures var w, all := Sweep(last, queue, arrivals), InHand(last) + queue + Joined(arrivals);
      if w.last.Some? then LastTaken(all, w.last.value, Joined(w.arrivals)) else all == Joined(w.arrivals)
    ensures last.Some? || queue != [] ==> Sweep(last, queue, arrivals).last.Some?
    decreases |arrivals|
  {
    var popped := if queue == [] then last else Newest(queue);
    var all := InHand(last) + queue;
    var skipped := if all == [] then [] else all[..|all| - 1];
    assert all == skipped + InHand(popped);
    if arrivals != [] && arrivals[0] != [] {
      SweepTakesLast(popped, arrivals[0], arrivals[1..]);
      var w := Sweep(last, queue, arrivals);
      var later := InHand(popped) + arrivals[0] + Joined(arrivals[1..]);
      assert all + Joined(arrivals) == skipped + later;
      hide Sweep, Joined;
      if w.last.Some? {
        MoreBefore(skipped, later, w.last.value, Joined(w.arrivals));
      }
    } else {
      assert Joined(Sweep(last, queue, arrivals).arrivals) == Joined(arrivals);
      if popped.Some? {
        assert skipped + [popped.value] + Joined(arrivals) == all + Joined(arrivals);
      } else {
        assert all + Joined(arrivals) == Joined(arrivals);
      }
    }
  }

  lemma MoreBefore(skipped: seq<Image>, before: seq<Image>, p: Image, after: seq<Image>)
    requires LastTaken(before, p, after)
    ensures LastTaken(skipped + before, p, after)
  {
    var popped :| popped + [p] + after == before;
    assert (skipped + popped) + [p] + after == skipped + before;
  }

  /** `p` was taken together with everything before it; `after` is still to come. */
  ghost predicate LastTaken(before: seq<Image>, p: Image, after: seq<Image>) {
    exists popped :: popped + [p] + after == before
  }

  /** How a number of waits ended, and how many brought nothing. */
  datatype Response = Response(answer: Option<Image>, arrivals: seq<seq<Image>>, silent: nat)

  function Later(w: Response, n: nat): Response {
    w.(silent := w.silent + n)
  }

  /** Up to `max` sweeps, until one of them brings a packet. */
  function Await(queue: seq<Image>, arrivals: seq<seq<Image>>, max: nat): (w: Response)
    ensures w.silent <= max && (w.answer.None? <==> w.silent == max)
    decreases max
  {
    if max == 0 then Response(None, arrivals, 0)
    else
      var w := Sweep(None, queue, arrivals);
      if w.last.Some? then Response(w.last, w.arrivals, 0)
      else Later(Await([], w.arrivals, max - 1), 1)
  }

  lemma AwaitStep(queue: seq<Image>, arrivals: seq<seq<Image>>, max: nat)
    ensures max == 0 ==> Await(queue, arrivals, max) == Response(None, arrivals, 0)
    ensures max > 0 ==>
      var w := Sweep(None, queue, arrivals);
      Await(queue, arrivals, max)
        == if w.last.Some? then Response(w.last, w.arrivals, 0) else Later(Await([], w.arrivals, max - 1), 1)
  {
  }

  /** The answer is the last packet of what was received, and nothing behind it is lost. */
  lemma {:induction false} AwaitTakesLast(queue: seq<Image>, arrivals: seq<seq<Image>>, max: nat)
    ensures var w := Await(queue, arrivals, max);
      w.answer.Some? ==> LastTaken(queue + Joined(arrivals), w.answer.value, Joined(w.arrivals))
    decreases max
  {
    if max > 0 {
      SweepTakesLast(None, queue, arrivals);
      var w := Sweep(None, queue, arrivals);
      assert InHand(None) + queue == queue;
      if w.last.None? {
        AwaitTakesLast([], w.arrivals, max - 1);
        assert [] + Joined(w.arrivals) == Joined(w.arrivals);
      }
    }
  }

  lemma OneMoreCopy(f: seq<byte>, n: nat)
    ensures Copies(f, n + 1) == Copies(f, n) + [f]
    ensures Copies(f, 0) == []
  {
  }

  function Newest(queue: seq<Image>): Option<Image> {
    if queue == [] then None else Some(queue[|queue| - 1])
  }

  // ----- answering the newest request -----

  /** The newest pending request, if any, is not the one being answered. */
  predicate Withheld(queue: seq<Image>, requestId: byte) {
    queue != [] && PacketId(queue[|queue| - 1]) != requestId
  }

  /** The queue after `SendResponseFrame` as one atomic step. */
  function RespondQueue(queue: seq<Image>, requestId: byte): seq<Image> {
    if Withheld(queue, requestId) then [queue[|queue| - 1]] else []
  }

  function Prefixed(done: seq<seq<byte>>, d: Drained): Drained {
    Drained(done + d.frames, d.rest, d.broken)
  }

  lemma PrefixedMore(done: seq<seq<byte>>, f: seq<byte>, d: Drained)
    ensures Prefixed(done, Drained([f] + d.frames, d.rest, d.broken)) == Prefixed(done + [f], d)
  {
    assert done + ([f] + d.frames) == (done + [f]) + d.frames;
  }

  lemma PushWire(q: seq<Image>, p: Image)
    ensures Wires(q + [p]) == Wires(q) + [Wire(p)]
  {
  }

  lemma EmptyWaits()
    ensures Judge([]) == NeedMore
  {
  }

  // ----- receiving over a whole run -----

  /** The largest announced length for which `realloc` cannot overflow. */
  const MAX_ANNOUNCED := (INT_MAX - 1032) / 6

  /** Receive events one after the other, exceptions included: each clears the buffer. */
  function Reception(held: seq<byte>, chunks: seq<seq<byte>>): Drained {
    if chunks == [] then Drained([], held, false)
    else
      var before := Reception(held, chunks[..|chunks| - 1]);
      var d := Drain(before.rest + chunks[|chunks| - 1]);
      Drained(before.frames + d.frames, d.rest, before.broken || d.broken)
  }

  lemma ReceptionSnoc(held: seq<byte>, chunks: seq<seq<byte>>, chunk: seq<byte>)
    ensures var before, d := Reception(held, chunks), Drain(Reception(held, chunks).rest + chunk);
      Reception(held, chunks + [chunk]) == Drained(before.frames + d.frames, d.rest, before.broken || d.broken)
  {
    assert (chunks + [chunk])[..|chunks|] == chunks;
  }

  lemma NothingReceived(held: seq<byte>, pending: seq<byte>)
    requires Judge(held) == NeedMore
    ensures Drain(held + pending[..0]) == Drained([], held, false)
  {
    assert held + pending[..0] == held;
  }

  /** Until the first exception that is the run of receive events of the stream itself. */
  lemma {:induction false} ReceptionIsFeed(chunks: seq<seq<byte>>)
    requires !Reception([], chunks).broken
    ensures Reception([], chunks) == Feed(chunks) == Drain(Flatten(chunks))
  {
    hide Drain;
    SplitIrrelevant(chunks);
    if chunks != [] {
      ReceptionIsFeed(chunks[..|chunks| - 1]);
    }
  }

  /**
   A damaged frame costs what was received together with it and nothing else: what stood before
   it is delivered, and so is everything received later.
   */
  lemma DamageCostsItsBatch(fs: seq<seq<byte>>, f: seq<byte>, i: nat, b: byte, behind: seq<byte>, gs: seq<seq<byte>>)
    requires (forall e | e in fs :: Emitted(e)) && (forall e | e in gs :: Emitted(e)) && Emitted(f)
    requires i < |f| && i != 2 && b != f[i]
    ensures var batches := [Flatten(fs) + (f[i := b] + behind), Flatten(gs)];
      Reception([], batches) == Drained(fs + gs, [], true)
  {
    hide Emitted, Drain, Flatten, Reception;
    DamagedAmong(fs, f, i, b, behind);
    FramesRecovered(gs);
    var damaged := Flatten(fs) + (f[i := b] + behind);
    TwoBatches(damaged, Flatten(gs));
  }

  lemma DamagedAmong(fs: seq<seq<byte>>, f: seq<byte>, i: nat, b: byte, behind: seq<byte>)
    requires (forall e | e in fs :: Emitted(e)) && Emitted(f) && i < |f| && i != 2 && b != f[i]
    ensures Drain(Flatten(fs) + (f[i := b] + behind)) == Drained(fs, [], true)
  {
    hide Emitted, Drain, Flatten, Judge, Wire;
    FramesRecovered(fs);
    var tail := f[i := b] + behind;
    EmittedReady(f, behind);
    assert (f + behind)[i := b] == tail;
    DamageBreaks(f + behind, i, b);
    DrainConcat(Flatten(fs), tail);
    assert [] + tail == tail;
  }

  lemma TwoBatches(s: seq<byte>, t: seq<byte>)
    requires Drain(s).rest == []
    ensures Reception([], [s, t]) == Drained(Drain(s).frames + Drain(t).frames, Drain(t).rest, Drain(s).broken || Drain(t).broken)
  {
    hide Drain;
    ReceptionSnoc([], [], s);
    ReceptionSnoc([], [s], t);
    assert [] + [s] == [s] && [s] + [t] == [s, t];
    assert Reception([], []) == Drained([], [], false);
    assert [] + s == s && [] + t == t;
  }
}
