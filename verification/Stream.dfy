/** Cutting frames off the front of a byte stream that arrives in arbitrary pieces. */
module Stream {
  import opened Bytes
  import opened Buffers
  import opened Packets

  /** What `PacketVaild` says of the buffered bytes: false, true, or an exception. */
  datatype Verdict = NeedMore | Ready | Broken

  function Judge(s: seq<byte>): (v: Verdict)
    ensures v == Ready ==> |s| > 2 && FrameLen(s) <= |s| && IsFrame(s)
  {
    if |s| < 2 then NeedMore
    else if s[0] != HEAD0 || s[1] != HEAD1 then Broken
    else if |s| >= PACKET_MINLEN && |s| >= FrameLen(s) then
      if IsFrame(s) then Ready else Broken
    else NeedMore
  }

  /** The frames cut off, the bytes kept for later, and whether cutting ended in an exception. */
  datatype Drained = Drained(frames: seq<seq<byte>>, rest: seq<byte>, broken: bool)

  /** The receive loop over the buffered bytes; an exception clears the buffer. */
  function Drain(s: seq<byte>): Drained
    decreases |s|
  {
    match Judge(s)
    case NeedMore => Drained([], s, false)
    case Broken => Drained([], [], true)
    case Ready =>
      var d := Drain(s[FrameLen(s)..]);
      d.(frames := [Wire(s)] + d.frames)
  }

  function Flatten(chunks: seq<seq<byte>>): seq<byte> {
    if chunks == [] then [] else chunks[0] + Flatten(chunks[1..])
  }

  /** `e` received after `d`: an exception in `d` ends everything. */
  function Then(d: Drained, e: Drained): Drained {
    if d.broken then d else Drained(d.frames + e.frames, e.rest, e.broken)
  }

  /** A run of receive events up to the first exception. */
  function Feed(chunks: seq<seq<byte>>): Drained {
    if chunks == [] then Drained([], [], false)
    else
      var before := Feed(chunks[..|chunks| - 1]);
      Then(before, Drain(before.rest + chunks[|chunks| - 1]))
  }

  // ----- verdicts are stable -----

  lemma FrameStable(s: seq<byte>, t: seq<byte>)
    requires |s| > 2 && FrameLen(s) <= |s|
    ensures FrameLen(s + t) == FrameLen(s)
    ensures IsFrame(s + t) <==> IsFrame(s)
    ensures Wire(s + t) == Wire(s)
  {
    var n := LengthByte(s);
    assert (s + t)[2..n + 2] == s[2..n + 2];
    assert (s + t)[..n + 4] == s[..n + 4];
  }

  /** More bytes behind never change a verdict once one is given. */
  lemma JudgeStable(s: seq<byte>, t: seq<byte>)
    requires Judge(s) != NeedMore
    ensures Judge(s + t) == Judge(s)
  {
    if |s| >= PACKET_MINLEN && |s| >= FrameLen(s) {
      FrameStable(s, t);
    }
  }

  /** Bytes that wait for more are fewer than the longest frame. */
  lemma WaitingIsShort(s: seq<byte>)
    requires Judge(s) == NeedMore
    ensures |s| <= 258
  {
  }

  /** One unfolding of `Drain`. */
  lemma DrainStep(s: seq<byte>)
    ensures Judge(s) == NeedMore ==> Drain(s) == Drained([], s, false)
    ensures Judge(s) == Broken ==> Drain(s) == Drained([], [], true)
    ensures Judge(s) == Ready ==>
      var d := Drain(s[FrameLen(s)..]);
      Drain(s) == Drained([Wire(s)] + d.frames, d.rest, d.broken)
  {
  }

  lemma ThenCons(f: seq<byte>, d: Drained, e: Drained)
    ensures Then(Drained([f] + d.frames, d.rest, d.broken), e)
         == var r := Then(d, e); Drained([f] + r.frames, r.rest, r.broken)
  {
    assert ([f] + d.frames) + e.frames == [f] + (d.frames + e.frames);
  }

  /** Draining in two portions gives what draining at once gives. */
  lemma {:induction false} DrainConcat(s: seq<byte>, t: seq<byte>)
    ensures Drain(s + t) == Then(Drain(s), Drain(Drain(s).rest + t))
    decreases |s|
  {
    hide Judge, IsFrame, Wire, Drain, Then;
    DrainStep(s);
    match Judge(s)
    case NeedMore =>
      ThenNothing(s, Drain(s + t));
    case Broken =>
      JudgeStable(s, t);
      DrainStep(s + t);
      ThenNothing(s, Drain(t));
      ThenBroken(Drain(Drain(s).rest + t));
    case Ready =>
      JudgeStable(s, t);
      FrameStable(s, t);
      var n := FrameLen(s);
      assert (s + t)[n..] == s[n..] + t;
      DrainStep(s + t);
      DrainConcat(s[n..], t);
      ThenCons(Wire(s), Drain(s[n..]), Drain(Drain(s).rest + t));
  }

  lemma ThenNothing(s: seq<byte>, e: Drained)
    ensures Then(Drained([], s, false), e) == e
  {
    assert [] + e.frames == e.frames;
  }

  lemma ThenBroken(e: Drained)
    ensures Then(Drained([], [], true), e) == Drained([], [], true)
  {
  }

  lemma {:induction false} FlattenSnoc(chunks: seq<seq<byte>>)
    requires chunks != []
    ensures Flatten(chunks) == Flatten(chunks[..|chunks| - 1]) + chunks[|chunks| - 1]
  {
    if |chunks| > 1 {
      FlattenSnoc(chunks[1..]);
      assert chunks[1..][..|chunks| - 2] == chunks[..|chunks| - 1][1..];
    }
  }

  /** The way a stream is split over receive events has no effect on what is received. */
  lemma {:induction false} SplitIrrelevant(chunks: seq<seq<byte>>)
    ensures Feed(chunks) == Drain(Flatten(chunks))
  {
    if chunks != [] {
      var front := chunks[..|chunks| - 1];
      SplitIrrelevant(front);
      FlattenSnoc(chunks);
      DrainConcat(Flatten(front), chunks[|chunks| - 1]);
    }
  }

  lemma SameStreamSameFrames(chunks: seq<seq<byte>>, chunks': seq<seq<byte>>)
    requires Flatten(chunks) == Flatten(chunks')
    ensures Feed(chunks) == Feed(chunks')
  {
    SplitIrrelevant(chunks);
    SplitIrrelevant(chunks');
  }

  // ----- what is cut off -----

  /** A complete frame and nothing else, as long as `BuildPacket` makes them. */
  predicate Emitted(f: seq<byte>) {
    IsFrame(f) && |f| == FrameLen(f) && |f| >= PACKET_MINLEN
  }

  lemma FlattenCons(f: seq<byte>, fs: seq<seq<byte>>)
    ensures Flatten([f] + fs) == f + Flatten(fs)
  {
    assert ([f] + fs)[1..] == fs;
  }

  /** Nothing is invented, lost or reordered: frames and remainder are the stream itself. */
  lemma {:induction false} DrainConserves(s: seq<byte>) returns (tail: seq<byte>)
    ensures s == Flatten(Drain(s).frames) + tail
    ensures Drain(s).broken <==> Judge(tail) == Broken
    ensures !Drain(s).broken ==> Judge(tail) == NeedMore && tail == Drain(s).rest
    ensures Drain(s).broken ==> Drain(s).rest == []
    ensures forall f | f in Drain(s).frames :: IsFrame(f) && |f| == FrameLen(f)
    decreases |s|
  {
    hide Judge, IsFrame, Wire, Drain, Flatten;
    DrainStep(s);
    FlattenNone();
    match Judge(s)
    case NeedMore =>
      tail := s;
      assert [] + s == s;
    case Broken =>
      tail := s;
      assert [] + s == s;
    case Ready =>
      var n := FrameLen(s);
      tail := DrainConserves(s[n..]);
      var w, fs := Wire(s), Drain(s[n..]).frames;
      FlattenCons(w, fs);
      WireIsFrame(s);
      Reassociate(w, Flatten(fs), tail);
  }

  lemma FlattenNone()
    ensures Flatten([]) == []
  {
  }

  lemma Reassociate(a: seq<byte>, b: seq<byte>, c: seq<byte>)
    ensures (a + b) + c == a + (b + c)
  {
  }

  lemma WireIsFrame(s: seq<byte>)
    requires IsFrame(s)
    ensures s == Wire(s) + s[FrameLen(s)..]
    ensures IsFrame(Wire(s)) && |Wire(s)| == FrameLen(Wire(s))
  {
    FrameStable(Wire(s), s[FrameLen(s)..]);
  }

  lemma EmittedReady(f: seq<byte>, t: seq<byte>)
    requires Emitted(f)
    ensures Judge(f + t) == Ready && FrameLen(f + t) == |f| && Wire(f + t) == f
  {
    FrameStable(f, t);
    assert f[..|f|] == f;
  }

  /** A stream of built frames is cut back into exactly these frames. */
  lemma {:induction false} FramesRecovered(fs: seq<seq<byte>>)
    requires forall f | f in fs :: Emitted(f)
    ensures Drain(Flatten(fs)) == Drained(fs, [], false)
  {
    hide IsFrame, Sum, Judge, Drain, Wire, Emitted;
    if fs == [] {
      EmptyDrains();
    } else {
      var f, t := fs[0], Flatten(fs[1..]);
      assert f in fs;
      FramesRecovered(fs[1..]);
      EmittedReady(f, t);
      DrainStep(f + t);
      assert (f + t)[|f|..] == t;
      assert fs == [f] + fs[1..];
    }
  }

  lemma EmptyDrains()
    ensures Drain([]) == Drained([], [], false)
  {
  }

  /** The same for every split of that stream over receive events. */
  lemma FramesRecoveredFromAnySplit(fs: seq<seq<byte>>, chunks: seq<seq<byte>>)
    requires forall f | f in fs :: Emitted(f)
    requires Flatten(chunks) == Flatten(fs)
    ensures Feed(chunks) == Drained(fs, [], false)
  {
    SplitIrrelevant(chunks);
    FramesRecovered(fs);
  }

  // ----- build, then receive -----

  lemma TailMakesFrame(p: Image)
    requires p[0] == HEAD0 && p[1] == HEAD1 && LengthByte(p) >= 5
    ensures var q := WithTail(p);
      && IsFrame(q) && LengthByte(q) == LengthByte(p)
      && q[..LengthByte(p) + 2] == p[..LengthByte(p) + 2]
  {
    ImageHoldsFrame(p);
    var n, q := LengthByte(p), WithTail(p);
    assert q[2..n + 2] == p[2..n + 2];
  }

  /** Up to 250 data bytes come out of the receiver as they went into the sender. */
  lemma BuiltFields(p: Image, src: byte, dest: byte, ty: byte, fun: byte, data: Option<seq<byte>>)
    requires |Block(data)| <= 250
    ensures var q := Built(p, src, dest, ty, fun, data);
      && IsFrame(q) && LengthByte(q) == 5 + |Block(data)|
      && Src(q) == src && Dest(q) == dest && Type(q) == ty && Fun(q) == fun
      && Data(q) == Block(data)
      && Emitted(Wire(q))
  {
    hide IsFrame, Sum, Headed, WithTail;
    var h, q, n := Headed(p, src, dest, ty, fun, data), Built(p, src, dest, ty, fun, data), |Block(data)|;
    HeadedAt(p, src, dest, ty, fun, data);
    TailMakesFrame(h);
    assert forall i | 0 <= i < 7 + n :: q[i] == q[..7 + n][i] == h[i];
    assert Data(q) == Block(data);
    WireIsFrame(q);
  }

  /** Memory of a received packet: the frame copied over what was there. */
  function Received(stale: Image, f: seq<byte>): Image
    requires |f| <= STRUCT_SIZE
  {
    f + stale[|f|..]
  }

  /** The receiver, whose packet memory held `stale`, finds everything the sender put in. */
  predicate Returned(stale: Image, q: Image, src: byte, dest: byte, ty: byte, fun: byte, data: seq<byte>,
                     behind: seq<byte>)
  {
    var line := Wire(q) + behind;
    && Judge(line) == Ready
    && line[FrameLen(line)..] == behind
    && (var r := Received(stale, Wire(line));
        Src(r) == src && Dest(r) == dest && Type(r) == ty && Fun(r) == fun && Carried(r) == data)
  }

  /**
   Build, send with `behind` following on the line, receive over whatever memory: fields and
   data return exactly when the data block has at most 250 bytes. Beyond that the length byte
   has wrapped, and what the receiver takes for data is what its memory held before.
   */
  lemma RoundTripExactly(p: Image, src: byte, dest: byte, ty: byte, fun: byte, data: Option<seq<byte>>,
                         behind: seq<byte>)
    requires |Block(data)| < 256
    ensures |Block(data)| <= 250
       <==> forall stale: Image :: Returned(stale, Built(p, src, dest, ty, fun, data), src, dest, ty, fun, Block(data), behind)
  {
    hide Sum, IsFrame, Headed;
    var q := Built(p, src, dest, ty, fun, data);
    if |Block(data)| <= 250 {
      forall stale: Image ensures Returned(stale, q, src, dest, ty, fun, Block(data), behind) {
        BuiltFields(p, src, dest, ty, fun, data);
        EmittedReady(Wire(q), behind);
        ReceivedFields(stale, q);
      }
    } else {
      WrappedLength(p, src, dest, ty, fun, data);
      var stale := StaleWitness(Block(data)[1]);
      if Judge(Wire(q) + behind) == Ready {
        WrappedDataLost(stale, q, Block(data), behind);
      }
      assert !Returned(stale, q, src, dest, ty, fun, Block(data), behind);
    }
  }

  /** A memory that holds anything but `b` where the second data byte goes. */
  lemma StaleWitness(b: byte) returns (stale: Image)
    ensures stale[8] != b
  {
    stale := Zeros(STRUCT_SIZE)[8 := Low(b as int + 1)];
  }

  lemma WrappedDataLost(stale: Image, q: Image, data: seq<byte>, behind: seq<byte>)
    requires LengthByte(q) <= 4 && |data| > 1 && stale[8] != data[1]
    requires Judge(Wire(q) + behind) == Ready
    ensures Carried(Received(stale, Wire(Wire(q) + behind))) != data
  {
    var line := Wire(q) + behind;
    assert line[..FrameLen(q)] == Wire(q);
    assert LengthByte(line) == LengthByte(q);
    var r := Received(stale, Wire(line));
    assert r[8] == stale[8];
    assert LengthByte(r) == LengthByte(q);
    assert Carried(r)[1] == r[8];
  }

  lemma ReceivedFields(stale: Image, q: Image)
    requires LengthByte(q) >= 5
    ensures var r := Received(stale, Wire(q));
      && Wire(r) == Wire(q) && LengthByte(r) == LengthByte(q)
      && Src(r) == Src(q) && Dest(r) == Dest(q) && Type(r) == Type(q) && Fun(r) == Fun(q)
      && Data(r) == Data(q)
  {
    ImageHoldsFrame(q);
    var r := Received(stale, Wire(q));
    assert forall i | 0 <= i < FrameLen(q) :: r[i] == q[i];
    assert r[7..LengthByte(q) + 2] == q[7..LengthByte(q) + 2];
  }

  lemma WrappedLength(p: Image, src: byte, dest: byte, ty: byte, fun: byte, data: Option<seq<byte>>)
    requires 250 < |Block(data)| < 256
    ensures LengthByte(Built(p, src, dest, ty, fun, data)) == |Block(data)| - 251
  {
    hide Sum;
    HeadedAt(p, src, dest, ty, fun, data);
    ImageHoldsFrame(Headed(p, src, dest, ty, fun, data));
    if |Block(data)| == 251 {
      var h := Headed(p, src, dest, ty, fun, data);
      assert h[2..2] == [];
      SumOfNothing();
    }
  }

  lemma SumOfNothing()
    ensures Sum([]) == 0
  {
  }

  // ----- damage -----

  /**
   One wrong byte in a frame is noticed wherever it is, the length byte excepted: addresses,
   codes, data, checksum, end byte and head. The buffer is then cleared instead.
   */
  lemma DamageBreaks(s: seq<byte>, i: nat, b: byte)
    requires Judge(s) == Ready && i < FrameLen(s) && i != 2 && b != s[i]
    ensures Judge(s[i := b]) == Broken
    ensures Drain(s[i := b]) == Drained([], [], true)
  {
    hide Sum;
    var n, d := LengthByte(s), s[i := b];
    if 2 < i < n + 2 {
      assert d[2..n + 2] == s[2..n + 2][i - 2 := b];
      SumChanged(s[2..n + 2], i - 2, b);
    } else {
      assert d[2..n + 2] == s[2..n + 2];
    }
  }

  /** A frame that is still arriving is never refused, at whatever byte it is cut. */
  lemma PrefixWaits(f: seq<byte>, n: nat)
    requires Emitted(f) && n < |f|
    ensures Judge(f[..n]) == NeedMore
  {
  }

  /**
   When exactly the buffer waits: for a second byte whatever the first is, and behind the right
   two for nine bytes and for as many as the length byte announces.
   */
  lemma WaitsExactly(s: seq<byte>)
    ensures Judge(s) == NeedMore
       <==> |s| < 2 || (s[0] == 0xF7 && s[1] == 0xF8 && (|s| < 9 || |s| < s[2] as int + 4))
    ensures |s| >= 2 && (s[0] != 0xF7 || s[1] != 0xF8) ==> Judge(s) == Broken
  {
  }

  /** What is taken begins with F7 F8 and ends with FD behind its checksum. */
  lemma TakenShape(s: seq<byte>)
    requires Judge(s) == Ready
    ensures var n: nat := s[2];
      && s[0] == 0xF7 && s[1] == 0xF8 && s[n + 3] == 0xFD
      && s[n + 2] == Total(s[2..n + 2]) % 256
  {
    hide Sum, Total;
    SumIsTotal(s[2..LengthByte(s) + 2]);
  }

  /** A whole frame by itself is taken if and only if it has room for both addresses and codes. */
  lemma WholeFrameTakenExactly(f: seq<byte>)
    requires IsFrame(f) && |f| == FrameLen(f)
    ensures Judge(f) == Ready <==> LengthByte(f) >= 5
  {
  }

  // ----- identifiers -----

  /** The identifier of a built packet is the sum of everything in it that can differ, modulo 256. */
  lemma IdentifierIs(p: Image, src: byte, dest: byte, ty: byte, fun: byte, data: Option<seq<byte>>)
    requires |Block(data)| <= 250
    ensures PacketId(Built(p, src, dest, ty, fun, data))
         == (5 + |Block(data)| + src + dest + ty + fun + Total(Block(data))) % 256
  {
    hide Sum, Total, IsFrame, Headed, WithTail;
    var q, n := Built(p, src, dest, ty, fun, data), |Block(data)|;
    BuiltFields(p, src, dest, ty, fun, data);
    IdentifierOfFrame(q);
    SumIsTotal(q[2..n + 7]);
    var head: seq<byte> := [5 + n, src, dest, ty, fun];
    assert q[2..n + 7] == head + Data(q);
    TotalOfFive(5 + n, src, dest, ty, fun, Data(q));
  }

  lemma IdentifierOfFrame(q: Image)
    requires IsFrame(q)
    ensures PacketId(q) == Sum(q[2..LengthByte(q) + 2])
  {
    hide Sum;
  }

  lemma TotalOfFive(a: byte, b: byte, c: byte, d: byte, e: byte, s: seq<byte>)
    ensures Total([a, b, c, d, e] + s) == a + b + c + d + e + Total(s)
  {
    hide Total;
    FirstOfTotal(a, [b, c, d, e] + s);
    FirstOfTotal(b, [c, d, e] + s);
    FirstOfTotal(c, [d, e] + s);
    FirstOfTotal(d, [e] + s);
    FirstOfTotal(e, s);
    assert [a] + ([b, c, d, e] + s) == [a, b, c, d, e] + s;
    assert [b] + ([c, d, e] + s) == [b, c, d, e] + s;
    assert [c] + ([d, e] + s) == [c, d, e] + s;
    assert [d] + ([e] + s) == [d, e] + s;
  }

  lemma FirstOfTotal(a: byte, s: seq<byte>)
    ensures Total([a] + s) == a + Total(s)
  {
    assert ([a] + s)[1..] == s;
  }

  /** A request sent again has its old identifier, over whatever memory; one with one byte changed has not. */
  lemma IdentifierTells(p: Image, p': Image, src: byte, dest: byte, ty: byte, fun: byte,
                        data: Option<seq<byte>>, i: nat, b: byte)
    requires data.Some? && |data.value| <= 250 && i < |data.value| && b != data.value[i]
    ensures PacketId(Built(p, src, dest, ty, fun, data)) == PacketId(Built(p', src, dest, ty, fun, data))
    ensures PacketId(Built(p, src, dest, ty, fun, data)) != PacketId(Built(p', src, dest, ty, fun, Some(data.value[i := b])))
  {
    hide Total, Built;
    var d := data.value;
    IdentifierIs(p, src, dest, ty, fun, data);
    IdentifierIs(p', src, dest, ty, fun, data);
    IdentifierIs(p', src, dest, ty, fun, Some(d[i := b]));
    TotalChanged(d, i, b);
    Remainders(5 + |d| + src + dest + ty + fun + Total(d), b - d[i]);
  }
}
