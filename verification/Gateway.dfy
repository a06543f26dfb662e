/** ProtocolMethod::transform: the bus gateway with its query cache. */
module Gateway {
  import opened Bytes
  import opened Buffers
  import opened Packets
  import opened Stream
  import opened Comm

  /** The arguments of one call of `transform`. */
  datatype Request = Request(src: byte, dest: byte, ty: byte, fun: byte, data: Option<seq<byte>>,
                             save: bool, stopResend: bool)

  /** `GetPacketTypeID`: four bytes packed into one word. */
  function Key(src: byte, dest: byte, ty: byte, fun: byte): nat {
    ((src * 256 + dest) * 256 + ty) * 256 + fun
  }

  function KeyOf(p: Image): nat {
    Key(Src(p), Dest(p), Type(p), Fun(p))
  }

  function RequestKey(r: Request): nat {
    Key(r.src, r.dest, r.ty, r.fun)
  }

  /** `btType<<8|btFunction`. */
  function CodeOf(ty: byte, fun: byte): nat {
    ty * 256 + fun
  }

  function RequestCode(r: Request): nat {
    CodeOf(r.ty, r.fun)
  }

  lemma CodeInjective(ty: byte, fun: byte, ty': byte, fun': byte)
    requires CodeOf(ty, fun) == CodeOf(ty', fun')
    ensures ty == ty' && fun == fun'
  {
  }

  lemma KeyInjective(a: byte, b: byte, c: byte, d: byte, a': byte, b': byte, c': byte, d': byte)
    requires Key(a, b, c, d) == Key(a', b', c', d')
    ensures a == a' && b == b' && c == c' && d == d'
  {
  }

  /**
   A reply with the wanted destination, type and function is accepted, from whatever source and
   with whatever data; no other is.
   */
  lemma AcceptedExactly(r: Request, p: Image, src: byte, dest: byte, ty: byte, fun: byte, data: Option<seq<byte>>)
    requires |Block(data)| <= 250
    ensures Accepts(r, Built(p, src, dest, ty, fun, data)) <==> dest == r.dest && ty == r.ty && fun == r.fun
  {
    hide Built, IsFrame;
    BuiltFields(p, src, dest, ty, fun, data);
  }

  /** What `m_query_mutex` protects. */
  datatype Store = Store(cache: map<nat, Image>, block: set<nat>)

  datatype Answer = FromCache(p: Image) | Refused | GoToBus

  /** The first critical section of `transform`. */
  function Lookup(st: Store, r: Request): Answer {
    if r.save then GoToBus
    else if RequestKey(r) in st.cache then FromCache(st.cache[RequestKey(r)])
    else if RequestCode(r) in st.block then Refused
    else GoToBus
  }

  /** `WaitCheckResult`: the source address is not looked at. */
  predicate Accepts(r: Request, reply: Image) {
    Dest(reply) == r.dest && Type(reply) == r.ty && Fun(reply) == r.fun
  }

  /** A command reply rewritten into the reply to a query; `to` packs type and function. */
  function Translated(reply: Image, to: nat): Image {
    Rechecked(reply[5 := Low(to / 256)][6 := Low(to)])
  }

  /** The last critical section of `transform`. */
  function Update(st: Store, trans: map<nat, nat>, r: Request, ok: bool, reply: Image): Store {
    if r.save then
      Store(if ok then st.cache[KeyOf(reply) := reply] else st.cache - {RequestKey(r)},
            st.block + {RequestCode(r)})
    else if ok && RequestCode(r) in trans then
      var t := Translated(reply, trans[RequestCode(r)]);
      st.(cache := st.cache[KeyOf(t) := t])
    else st
  }

  /** The frame one exchange puts on the bus, given the memory it is built in. */
  function RequestFrame(p: Image, r: Request): seq<byte>
    requires |Block(r.data)| < 256
  {
    Wire(Built(p, r.src, r.dest, r.ty, r.fun, r.data))
  }

  class ProtocolMethod {
    const comm: ProtocolComm
    var cache: map<nat, Image>
    var block: set<nat>
    var trans: map<nat, nat>

    constructor (comm: ProtocolComm)
      ensures this.comm == comm
      ensures Contents() == Store(map[], {}) && trans == map[]
    {
      this.comm := comm;
      cache, block, trans := map[], {}, map[];
    }

    ghost function Contents(): Store
      reads this
    {
      Store(cache, block)
    }

    method SetCmdPacketTransMap(fromType: byte, fromFun: byte, toType: byte, toFun: byte)
      requires CodeOf(fromType, fromFun) !in trans
      modifies this`trans
      ensures trans == old(trans)[CodeOf(fromType, fromFun) := CodeOf(toType, toFun)]
    {
      trans := trans[CodeOf(fromType, fromFun) := CodeOf(toType, toFun)];
    }

    /** `WaitCheckResult`: `answer` is the packet the wait ended with, if any. */
    method WaitCheckResult(r: Request) returns (ok: bool, reply: Image, ghost answer: Option<Image>, ghost repeats: nat)
      requires comm.packet.Valid()
      modifies comm`queue, comm`arrivals, comm`written, comm`writeResults
      ensures ok <==> answer.Some? && Accepts(r, answer.value)
      ensures answer.Some? ==> reply == answer.value
      ensures var max := if comm.resend then RESEND_COUNT else 1;
        var w := Await(old(comm.queue), old(comm.arrivals), max);
        && answer == w.answer && comm.arrivals == w.arrivals
        && repeats == if answer.None? then max - 1 else w.silent
      ensures comm.written == old(comm.written) + Copies(Wire(comm.packet.Memory()), repeats)
      ensures comm.queue == []
    {
      hide Await, Accepts, Wire, Copies;
      var received;
      received, repeats := comm.WaitResponse();
      answer := received;
      if received.None? {
        return false, Zeros(STRUCT_SIZE), answer, repeats;
      }
      reply := received.value;
      ok := Accepts(r, reply);
    }

    /**
     The exchange under `m_mutex`: one copy of the frame for every wait that runs out with
     nothing received, three at most, exactly one when repetition is suspended; the flag is
     afterwards what it was before.
     */
    method Exchange(r: Request) returns (ok: bool, reply: Image, ghost e: Exchanged)
      requires comm.packet.Valid() && |Block(r.data)| < 256
      modifies comm`queue, comm`arrivals, comm`written, comm`writeResults, comm`resend, comm.packet.mem
      ensures e == Exchanging(r, old(comm.resend), old(comm.arrivals), old(comm.writeResults))
      ensures comm.arrivals == e.arrivals && comm.queue == []
      ensures ok <==> e.answer.Some? && Accepts(r, e.answer.value)
      ensures e.answer.Some? ==> reply == e.answer.value
      ensures comm.written
           == old(comm.written) + Copies(RequestFrame(old(comm.packet.Memory()), r), e.copies)
      ensures comm.resend == old(comm.resend)
    {
      hide Await, Accepts, Wire, Copies;
      var resend := true;
      if r.stopResend {
        resend := comm.resend;
        comm.resend := false;
      }
      ghost var answer: Option<Image>, repeats := None, 0;
      ok := comm.SendFrame(r.src, r.dest, r.ty, r.fun, r.data, true);
      ghost var frame := Wire(comm.packet.Memory());
      OneMoreCopy(frame, 0);
      if ok {
        ok, reply, answer, repeats := WaitCheckResult(r);
      } else {
        reply := Zeros(STRUCT_SIZE);
      }
      e := Exchanged(answer, comm.arrivals, 1 + repeats);
      CopiesJoin(frame, repeats, old(comm.written));
      if r.stopResend {
        comm.resend := resend;
      }
    }

    /** One call of `transform` by itself. */
    method Transform(r: Request) returns (ok: bool, reply: Image)
      requires comm.packet.Valid() && |Block(r.data)| < 256
      modifies this`cache, this`block
      modifies comm`queue, comm`arrivals, comm`written, comm`writeResults, comm`resend, comm.packet.mem
      ensures comm.resend == old(comm.resend)
      ensures r.save ==> |comm.written| > |old(comm.written)|
      ensures var found := Lookup(old(Contents()), r);
        && (found.FromCache? ==> ok && reply == found.p)
        && (found.Refused? ==> !ok)
        && (found != GoToBus ==>
              && Contents() == old(Contents()) && comm.written == old(comm.written)
              && comm.queue == old(comm.queue) && comm.arrivals == old(comm.arrivals))
      ensures var e := Exchanging(r, old(comm.resend), old(comm.arrivals), old(comm.writeResults));
        Lookup(old(Contents()), r) == GoToBus ==>
          && Contents() == Update(old(Contents()), trans, r, ok, reply)
          && comm.arrivals == e.arrivals && comm.queue == []
          && (ok <==> e.answer.Some? && Accepts(r, e.answer.value))
          && (e.answer.Some? ==> reply == e.answer.value)
          && comm.written == old(comm.written) + Copies(RequestFrame(old(comm.packet.Memory()), r), e.copies)
    {
      hide Exchanging, Accepts, RequestFrame, Headed, WithTail;
      if !r.save {
        if RequestKey(r) in cache {
          return true, cache[RequestKey(r)];
        } else if RequestCode(r) in block {
          return false, Zeros(STRUCT_SIZE);
        }
      }
      CopiesBounded(r, comm.resend, comm.arrivals, comm.writeResults);
      ghost var e;
      ok, reply, e := Exchange(r);
      if r.save {
        block := block + {RequestCode(r)};
        if ok {
          cache := cache[KeyOf(reply) := reply];
        } else {
          cache := cache - {RequestKey(r)};
        }
      } else if ok {
        if RequestCode(r) in trans {
          CacheTranslated(reply, trans[RequestCode(r)]);
        }
      }
    }

    /** The reply to a command is kept as the reply to a query. */
    method CacheTranslated(reply: Image, to: nat)
      modifies this`cache
      ensures var t := Translated(reply, to); cache == old(cache)[KeyOf(t) := t]
    {
      hide Key, Sum;
      var tran := new Packet(reply);
      tran.SetType(Low(to / 256));
      tran.SetFunction(Low(to));
      tran.ReCheckSum();
      var image := tran.Memory();
      cache := cache[KeyOf(image) := image];
    }
  }

  /** The answer of an exchange, what is still to be received, and the copies sent. */
  datatype Exchanged = Exchanged(answer: Option<Image>, arrivals: seq<seq<Image>>, copies: nat)

  /** How an exchange goes in given surroundings. */
  function Exchanging(r: Request, resend: bool, arrivals: seq<seq<Image>>, writeResults: seq<bool>): Exchanged {
    if !WriteSucceeds(writeResults) then Exchanged(None, arrivals, 1)
    else
      var w := Await([], arrivals, if resend && !r.stopResend then RESEND_COUNT else 1);
      Exchanged(w.answer, w.arrivals, if w.answer.None? then w.silent else w.silent + 1)
  }

  /** One to three frames in every case, and a single one when repetition is suspended. */
  lemma CopiesBounded(r: Request, resend: bool, arrivals: seq<seq<Image>>, writeResults: seq<bool>)
    ensures var e := Exchanging(r, resend, arrivals, writeResults);
      1 <= e.copies <= RESEND_COUNT && (r.stopResend || !resend ==> e.copies == 1)
  {
    hide Await;
  }

  /**
   A device that answers in the wait after `n` silent ones is heard as long as `n` is below the
   number of waits; by then the frame has been sent once more than there were silent waits.
   */
  lemma {:induction false} LateAnswerHeard(n: nat, p: Image, rest: seq<seq<Image>>, max: nat)
    ensures n < max ==> Await([], Silence(n) + [[p], []] + rest, max) == Response(Some(p), rest, n)
    ensures n >= max ==> Await([], Silence(n) + [[p], []] + rest, max).answer == None
    decreases n, max
  {
    var arrivals := Silence(n) + [[p], []] + rest;
    AwaitStep([], arrivals, max);
    hide Await;
    if n == 0 {
      assert arrivals[0] == [p] && arrivals[1] == [] && arrivals[1..][1..] == rest;
      OneArrival(p, arrivals);
    } else if max > 0 {
      assert arrivals[0] == [] && arrivals[1..] == Silence(n - 1) + [[p], []] + rest;
      LateAnswerHeard(n - 1, p, rest, max - 1);
    }
  }

  lemma OneArrival(p: Image, arrivals: seq<seq<Image>>)
    requires |arrivals| >= 2 && arrivals[0] == [p] && arrivals[1] == []
    ensures Sweep(None, [], arrivals) == Swept(Some(p), arrivals[2..])
  {
    assert arrivals[1..][1..] == arrivals[2..];
    assert Sweep(Some(p), [], arrivals[1..]) == Swept(Some(p), arrivals[2..]) by {
      assert arrivals[1..][0] == [];
    }
    assert Sweep(Some(p), [p], arrivals[1..]) == Swept(Some(p), arrivals[2..]);
  }

  function Silence(n: nat): (s: seq<seq<Image>>)
    ensures |s| == n
  {
    seq(n, _ => [])
  }

  /** With repetition on, the third frame is the last; with it off or suspended, the first. */
  lemma FramesPerExchange(r: Request, resend: bool, n: nat, p: Image, rest: seq<seq<Image>>)
    ensures var e := Exchanging(r, resend, Silence(n) + [[p], []] + rest, []);
      if resend && !r.stopResend then
        e.answer == (if n <= 2 then Some(p) else None) && e.copies == (if n <= 2 then n + 1 else 3)
      else
        e.answer == (if n == 0 then Some(p) else None) && e.copies == 1
  {
    hide Await;
    LateAnswerHeard(n, p, rest, if resend && !r.stopResend then 3 else 1);
  }

  /** An answer is a packet that was received during the exchange, and the last one of its wait. */
  lemma AnswerReceived(r: Request, resend: bool, arrivals: seq<seq<Image>>, writeResults: seq<bool>)
    ensures var e := Exchanging(r, resend, arrivals, writeResults);
      e.answer.Some? ==> LastTaken(Joined(arrivals), e.answer.value, Joined(e.arrivals))
  {
    hide Await, LastTaken, Joined;
    AwaitTakesLast([], arrivals, if resend && !r.stopResend then RESEND_COUNT else 1);
    NothingQueued(Joined(arrivals));
  }

  lemma NothingQueued(arrivals: seq<Image>)
    ensures [] + arrivals == arrivals
  {
  }

  lemma CopiesJoin(f: seq<byte>, n: nat, before: seq<seq<byte>>)
    ensures (before + [f]) + Copies(f, n) == before + Copies(f, 1 + n)
  {
  }

  // ----- when a rewritten reply is the right one -----

  /** The checksum or the end byte of the frame lies on its type or function byte. */
  predicate TailOnCodes(p: Image) {
    2 <= LengthByte(p) <= 4
  }

  /** The overlapping cases that come out right by coincidence, told before the rewriting. */
  predicate TailFits(p: Image, ty: byte, fun: byte)
    requires TailOnCodes(p)
  {
    match LengthByte(p)
    case 2 => ty == PACKET_END
    case 3 => fun == PACKET_END && Sum(p[2..5]) == ty
    case _ => Sum(p[2..5] + [ty]) == fun
  }

  /** A reply of this code that is a frame and keeps its addresses. */
  ghost predicate GoodTranslation(p: Image, q: Image, ty: byte, fun: byte) {
    && IsFrame(q) && Type(q) == ty && Fun(q) == fun
    && LengthByte(q) == LengthByte(p) && Src(q) == Src(p) && Dest(q) == Dest(p)
  }

  /** Rewriting a received frame works exactly when its tail is clear of the two codes. */
  lemma TranslationExactly(p: Image, ty: byte, fun: byte)
    requires IsFrame(p)
    ensures GoodTranslation(p, Translated(p, CodeOf(ty, fun)), ty, fun)
       <==> !TailOnCodes(p) || TailFits(p, ty, fun)
  {
    hide Sum;
    assert CodeOf(ty, fun) / 256 == ty && CodeOf(ty, fun) % 256 == fun;
    var n, m := LengthByte(p), p[5 := ty][6 := fun];
    var q := Translated(p, CodeOf(ty, fun));
    assert q == m[n + 2 := Sum(m[2..n + 2])];
    assert q[2] == n by {
      if n == 0 {
        assert m[2..2] == [];
        SumOfNothing();
      }
    }
    assert q[2..n + 2] == m[2..n + 2];
    if n < 4 {
      assert m[2..n + 2] == p[2..n + 2];
    } else if n == 4 {
      assert m[5] == ty && m[2..5] == p[2..5] && m[2..6] == m[2..5] + [m[5]];
    }
  }

  /** The reply of this packet's code, if it is translated at all, comes out right. */
  ghost predicate TailSafe(trans: map<nat, nat>, p: Image) {
    var code := CodeOf(Type(p), Fun(p));
    code in trans ==> !TailOnCodes(p) || TailFits(p, Low(trans[code] / 256), Low(trans[code]))
  }

  lemma TranslatedGood(p: Image, to: nat)
    requires IsFrame(p) && (!TailOnCodes(p) || TailFits(p, Low(to / 256), Low(to)))
    ensures GoodTranslation(p, Translated(p, to), Low(to / 256), Low(to))
  {
    var code := CodeOf(Low(to / 256), Low(to));
    assert code / 256 == Low(to / 256) && code % 256 == Low(to);
    TranslationExactly(p, Low(to / 256), Low(to));
  }

  /** The translation map of the repeater: replies to three setting commands become query replies. */
  const COMMAND_TRANSLATION: map<nat, nat> := map[0x1E81 := 0x1E01, 0x1981 := 0x1901, 0x1C81 := 0x1C01]

  /** With that map it is the length byte 4, and no other, that goes wrong. */
  lemma ConfiguredTailSafeExactly(p: Image)
    requires IsFrame(p)
    ensures TailSafe(COMMAND_TRANSLATION, p)
       <==> (CodeOf(Type(p), Fun(p)) in COMMAND_TRANSLATION ==> LengthByte(p) != 4)
  {
    hide Sum;
    var code := CodeOf(Type(p), Fun(p));
    if code in COMMAND_TRANSLATION {
      assert Type(p) == code / 256 && Fun(p) == 0x81;
      var to := COMMAND_TRANSLATION[code];
      assert Low(to / 256) == Type(p) && Low(to) == 0x01;
      if LengthByte(p) == 4 {
        assert p[2..6] == p[2..5] + [Type(p)];
      }
    }
  }

  /** A light command forwarded for another sender, and a reply of length byte 4 to it. */
  const LIGHT_COMMAND := Request(0x57, 0x08, 0x1E, 0x81, Some([0x01, 0x00, 0x00]), false, true)
  const SHORT_REPLY: seq<byte> := [0xF7, 0xF8, 0x04, 0x57, 0x08, 0x1E, 0x81, 0xFD]

  lemma ShortSum()
    ensures Sum([4, 0x57, 8, 0x1E]) == 0x81
  {
    var counted: seq<byte> := [4, 0x57, 8, 0x1E];
    assert counted[..3] == [4, 0x57, 8] && counted[..3][..2] == [4, 0x57] && counted[..3][..2][..1] == [4];
    assert counted[..3][..2][..1][..0] == [];
    assert Sum(counted[..3][..2][..1]) == 4;
    assert Sum(counted[..3][..2]) == 0x5B;
    assert Sum(counted[..3]) == 0x63;
  }

  /** The receiver delivers the short reply as soon as the first byte of another frame follows. */
  lemma ShortReplyIsReceived()
    ensures Judge(SHORT_REPLY) == NeedMore
    ensures Drain(SHORT_REPLY + [HEAD0]) == Drained([SHORT_REPLY], [HEAD0], false)
  {
    hide Sum, Drain;
    var s := SHORT_REPLY + [HEAD0];
    ShortSum();
    assert s[2..6] == [4, 0x57, 8, 0x1E];
    assert Wire(s) == SHORT_REPLY && s[FrameLen(s)..] == [HEAD0];
    DrainStep(s);
    DrainStep([HEAD0]);
    assert [SHORT_REPLY] + [] == [SHORT_REPLY];
  }

  /** What goes wrong: from then on the command is answered from the cache and never sent. */
  lemma ShortReplyIsCached(stale: Image)
    ensures var p := Received(stale, SHORT_REPLY);
      && IsFrame(p) && Accepts(LIGHT_COMMAND, p)
      && Lookup(Update(Store(map[], {}), COMMAND_TRANSLATION, LIGHT_COMMAND, true, p), LIGHT_COMMAND) == FromCache(p)
  {
    hide Sum;
    var p := Received(stale, SHORT_REPLY);
    ShortSum();
    assert p[2..6] == [4, 0x57, 8, 0x1E];
    var m := p[5 := Low(0x1E01 / 256)][6 := Low(0x1E01)];
    assert m[2..6] == [4, 0x57, 8, 0x1E];
    assert Translated(p, 0x1E01) == m[6 := 0x81] == p;
  }

  // ----- when a rewritten reply is still a frame -----

  /** Only a length byte of 2 or 3 puts the end byte onto a rewritten byte. */
  lemma RewrittenIsFrameExactly(p: Image, to: nat)
    requires IsFrame(p)
    ensures IsFrame(Translated(p, to))
       <==> (LengthByte(p) == 2 ==> Low(to / 256) == PACKET_END) && (LengthByte(p) == 3 ==> Low(to) == PACKET_END)
  {
    hide Sum;
    var n, m := LengthByte(p), p[5 := Low(to / 256)][6 := Low(to)];
    var q := Translated(p, to);
    assert q == m[n + 2 := Sum(m[2..n + 2])];
    assert q[2] == n by {
      if n == 0 {
        assert m[2..2] == [];
        SumOfNothing();
      }
    }
    assert q[2..n + 2] == m[2..n + 2];
  }

  /** A map that takes an end byte on a code byte to an end byte there. */
  ghost predicate KeepsEnds(trans: map<nat, nat>) {
    forall ty: byte, fun: byte | CodeOf(ty, fun) in trans ::
      && (ty == PACKET_END ==> Low(trans[CodeOf(ty, fun)] / 256) == PACKET_END)
      && (fun == PACKET_END ==> Low(trans[CodeOf(ty, fun)]) == PACKET_END)
  }

  /** Every reply that is translated at all stays a frame. */
  ghost predicate KeepsFrames(trans: map<nat, nat>) {
    forall p: Image | IsFrame(p) && CodeOf(Type(p), Fun(p)) in trans :: IsFrame(Translated(p, trans[CodeOf(Type(p), Fun(p))]))
  }

  lemma KeptFrame(trans: map<nat, nat>, p: Image)
    requires KeepsEnds(trans) && IsFrame(p) && CodeOf(Type(p), Fun(p)) in trans
    ensures IsFrame(Translated(p, trans[CodeOf(Type(p), Fun(p))]))
  {
    hide Sum;
    RewrittenIsFrameExactly(p, trans[CodeOf(Type(p), Fun(p))]);
  }

  /** A frame of length byte 2, or 3, with the end byte on its type or function byte. */
  lemma EndOnType(fun: byte) returns (p: Image)
    ensures IsFrame(p) && LengthByte(p) == 2 && Type(p) == PACKET_END && Fun(p) == fun
  {
    p := [HEAD0, HEAD1, 2, 0, 2, PACKET_END, fun] + Zeros(255);
    assert p[2..4] == [2, 0] && p[2..4][..1] == [2] && p[2..4][..1][..0] == [];
    assert Sum(p[2..4][..1]) == 2;
  }

  lemma EndOnFun(ty: byte) returns (p: Image)
    ensures IsFrame(p) && LengthByte(p) == 3 && Type(p) == ty && Fun(p) == PACKET_END
  {
    var src := Low(ty as int + 253);
    p := [HEAD0, HEAD1, 3, src, 0, ty, PACKET_END] + Zeros(255);
    assert p[2..5] == [3, src, 0] && p[2..5][..2] == [3, src] && p[2..5][..2][..1] == [3];
    assert p[2..5][..2][..1][..0] == [];
    assert Sum(p[2..5][..2][..1]) == 3;
    assert Sum(p[2..5][..2]) == Low(src as int + 3) == ty;
  }

  /** Which maps turn no frame into something else, told from the map alone. */
  lemma KeepsFramesExactly(trans: map<nat, nat>)
    ensures KeepsFrames(trans) <==> KeepsEnds(trans)
  {
    hide IsFrame, Sum, Translated;
    if KeepsEnds(trans) {
      forall p: Image | IsFrame(p) && CodeOf(Type(p), Fun(p)) in trans
        ensures IsFrame(Translated(p, trans[CodeOf(Type(p), Fun(p))]))
      {
        KeptFrame(trans, p);
      }
    }
    if KeepsFrames(trans) {
      forall ty: byte, fun: byte | CodeOf(ty, fun) in trans
        ensures ty == PACKET_END ==> Low(trans[CodeOf(ty, fun)] / 256) == PACKET_END
        ensures fun == PACKET_END ==> Low(trans[CodeOf(ty, fun)]) == PACKET_END
      {
        EndsKept(trans, ty, fun);
      }
    }
  }

  lemma EndsKept(trans: map<nat, nat>, ty: byte, fun: byte)
    requires KeepsFrames(trans) && CodeOf(ty, fun) in trans
    ensures ty == PACKET_END ==> Low(trans[CodeOf(ty, fun)] / 256) == PACKET_END
    ensures fun == PACKET_END ==> Low(trans[CodeOf(ty, fun)]) == PACKET_END
  {
    hide IsFrame, Sum, Translated;
    if ty == PACKET_END {
      var p := EndOnType(fun);
      RewrittenIsFrameExactly(p, trans[CodeOf(ty, fun)]);
    }
    if fun == PACKET_END {
      var p := EndOnFun(ty);
      RewrittenIsFrameExactly(p, trans[CodeOf(ty, fun)]);
    }
  }

  lemma ConfiguredKeepsEnds()
    ensures KeepsEnds(COMMAND_TRANSLATION)
  {
  }

  /** Every entry is stored under the identifier of the packet it holds. */
  ghost predicate OwnKeys(st: Store) {
    forall k | k in st.cache :: KeyOf(st.cache[k]) == k
  }

  lemma UpdateKeepsOwnKeys(st: Store, trans: map<nat, nat>, r: Request, ok: bool, reply: Image)
    requires OwnKeys(st)
    ensures OwnKeys(Update(st, trans, r, ok, reply))
  {
  }
}
