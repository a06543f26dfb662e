/**
 Any number of threads inside `transform` at once, together with the receiving thread: every
 critical section, every serial line event and every wait is one step.
 */
module Interleaving {
  import opened Bytes
  import opened Buffers
  import opened Packets
  import opened Stream
  import opened Comm
  import opened Gateway

  /** Where a thread is inside `transform`. */
  datatype Phase =
    | Idle
    | WantBus(r: Request)
    | Entered(r: Request, saved: bool)
    | Waiting(r: Request, saved: bool, repeating: bool, left: nat, frame: seq<byte>, sent: seq<seq<byte>>)
    | Finished(r: Request, saved: bool, ok: bool, reply: Image, sent: seq<seq<byte>>)
    | WantUpdate(r: Request, ok: bool, reply: Image)
    | Returned(r: Request, answer: Option<Image>)

  type Thread = nat

  datatype State = State(
    store: Store,
    buffer: seq<byte>,
    queue: seq<Image>,
    resend: bool,
    owner: Option<Thread>,
    phase: map<Thread, Phase>)

  /** What is fixed while the gateway runs. */
  datatype Config = Config(trans: map<nat, nat>, resend: bool)

  function PhaseOf(s: State, t: Thread): Phase {
    if t in s.phase then s.phase[t] else Idle
  }

  /** The thread holds `m_mutex`. */
  predicate OnBus(p: Phase) {
    p.Entered? || p.Waiting? || p.Finished?
  }

  ghost predicate Init(c: Config, s: State) {
    s == State(Store(map[], {}), [], [], c.resend, None, map[])
  }

  function Goes(s: State, t: Thread, p: Phase): State {
    s.(phase := s.phase[t := p])
  }

  // ----- the steps -----

  /** The receiving thread: one receive event brings `chunk`. */
  ghost predicate Receive(s: State, s': State, chunk: seq<byte>) {
    var d := Drain(s.buffer + chunk);
    && s' == s.(buffer := d.rest, queue := s'.queue)
    && |s'.queue| >= |s.queue| && s'.queue[..|s.queue|] == s.queue
    && Wires(s'.queue[|s.queue|..]) == d.frames
  }

  /** A call begins: the cache and the block set are looked at. */
  ghost predicate Begin(s: State, s': State, t: Thread, r: Request) {
    && (PhaseOf(s, t).Idle? || PhaseOf(s, t).Returned?)
    && |Block(r.data)| < 256
    && s' == Goes(s, t, match Lookup(s.store, r)
                        case FromCache(p) => Returned(r, Some(p))
                        case Refused => Returned(r, None)
                        case GoToBus => WantBus(r))
  }

  /** `m_mutex` is taken and repetition is suspended if the caller wants that. */
  ghost predicate Enter(s: State, s': State, t: Thread) {
    var p := PhaseOf(s, t);
    && p.WantBus? && s.owner == None
    && s' == Goes(s, t, Entered(p.r, if p.r.stopResend then s.resend else true))
               .(owner := Some(t), resend := s.resend && !p.r.stopResend)
  }

  /** The queue is emptied and the frame is written; a failed write ends the exchange. */
  ghost predicate Send(s: State, s': State, t: Thread, memory: Image, written: bool) {
    var p := PhaseOf(s, t);
    && p.Entered?
    && |Block(p.r.data)| < 256
    && var f := RequestFrame(memory, p.r);
      s' == Goes(s, t, if written then Waiting(p.r, p.saved, s.resend, RESEND_COUNT, f, [f])
                       else Finished(p.r, p.saved, false, memory, []))
              .(queue := [])
  }

  /** Everything queued is popped and the last packet checked. */
  ghost predicate Answer(s: State, s': State, t: Thread) {
    var p := PhaseOf(s, t);
    && p.Waiting? && s.queue != []
    && var reply := s.queue[|s.queue| - 1];
      s' == Goes(s, t, Finished(p.r, p.saved, Accepts(p.r, reply), reply, p.sent)).(queue := [])
  }

  /** A wait on the empty queue runs out: repeat the frame, or give up. */
  ghost predicate TimeOut(s: State, s': State, t: Thread, unused: Image) {
    var p := PhaseOf(s, t);
    && p.Waiting? && s.queue == []
    && s' == Goes(s, t, if p.repeating && p.left > 1 then p.(left := p.left - 1, sent := p.sent + [p.frame])
                        else Finished(p.r, p.saved, false, unused, p.sent))
  }

  /** Repetition is restored and `m_mutex` released. */
  ghost predicate Leave(s: State, s': State, t: Thread) {
    var p := PhaseOf(s, t);
    && p.Finished?
    && s' == Goes(s, t, WantUpdate(p.r, p.ok, p.reply))
               .(owner := None, resend := if p.r.stopResend then p.saved else s.resend)
  }

  /** The cache and the block set are brought up to date. */
  ghost predicate Finish(c: Config, s: State, s': State, t: Thread) {
    var p := PhaseOf(s, t);
    && p.WantUpdate?
    && s' == Goes(s, t, Returned(p.r, if p.ok then Some(p.reply) else None))
               .(store := Update(s.store, c.trans, p.r, p.ok, p.reply))
  }

  datatype Step =
    | ReceiveStep(chunk: seq<byte>)
    | BeginStep(t: Thread, r: Request)
    | EnterStep(t: Thread)
    | SendStep(t: Thread, memory: Image, written: bool)
    | AnswerStep(t: Thread)
    | TimeOutStep(t: Thread, unused: Image)
    | LeaveStep(t: Thread)
    | FinishStep(t: Thread)

  ghost predicate Next(c: Config, s: State, s': State, step: Step) {
    match step
    case ReceiveStep(chunk) => Receive(s, s', chunk)
    case BeginStep(t, r) => Begin(s, s', t, r)
    case EnterStep(t) => Enter(s, s', t)
    case SendStep(t, memory, written) => Send(s, s', t, memory, written)
    case AnswerStep(t) => Answer(s, s', t)
    case TimeOutStep(t, unused) => TimeOut(s, s', t, unused)
    case LeaveStep(t) => Leave(s, s', t)
    case FinishStep(t) => Finish(c, s, s', t)
  }

  /** Any order of steps by any threads, from the empty gateway on. */
  ghost predicate Execution(c: Config, run: seq<State>, steps: seq<Step>) {
    && |run| == |steps| + 1
    && Init(c, run[0])
    && forall i | 0 <= i < |steps| :: Next(c, run[i], run[i + 1], steps[i])
  }

  // ----- one thread on the bus, and repetition put back -----

  /** The frame on the line is the request's own. */
  ghost predicate Carries(f: seq<byte>, r: Request) {
    |Block(r.data)| < 256 && exists memory: Image :: f == RequestFrame(memory, r)
  }

  /** At most three copies of the request's frame, and no second one when repetition is off. */
  ghost predicate SentWell(c: Config, r: Request, sent: seq<seq<byte>>) {
    && |sent| <= RESEND_COUNT
    && (r.stopResend || !c.resend ==> |sent| <= 1)
    && (forall f | f in sent :: Carries(f, r) && f == sent[0])
  }

  ghost predicate ThreadInv(c: Config, s: State, t: Thread) {
    var p := PhaseOf(s, t);
    && (OnBus(p) <==> s.owner == Some(t))
    && (OnBus(p) ==> if p.r.stopResend then p.saved == c.resend && !s.resend else s.resend == c.resend)
    && (p.Waiting? ==>
          && p.repeating == s.resend && Carries(p.frame, p.r)
          && 1 <= p.left <= RESEND_COUNT && (!p.repeating ==> p.left == RESEND_COUNT)
          && p.sent == Copies(p.frame, RESEND_COUNT + 1 - p.left))
    && (p.Finished? ==> SentWell(c, p.r, p.sent))
  }

  ghost predicate BusInv(c: Config, s: State) {
    && (s.owner == None ==> s.resend == c.resend)
    && forall t :: ThreadInv(c, s, t)
  }

  /** A step of thread `t` that keeps the bus, or is not on it, leaves the others as they were. */
  lemma OthersKept(c: Config, s: State, s': State, t: Thread)
    requires BusInv(c, s)
    requires forall u | u != t :: PhaseOf(s', u) == PhaseOf(s, u)
    requires ThreadInv(c, s', t)
    requires s'.owner == None ==> s'.resend == c.resend
    requires (s'.owner == s.owner && s'.resend == s.resend) || s.owner == Some(t) || s.owner == None
    requires s'.owner in {None, Some(t), s.owner}
    ensures BusInv(c, s')
  {
    forall u ensures ThreadInv(c, s', u) {
      assert ThreadInv(c, s, u);
    }
  }

  lemma BusSend(c: Config, s: State, s': State, t: Thread, memory: Image, written: bool)
    requires BusInv(c, s) && Send(s, s', t, memory, written)
    ensures BusInv(c, s')
  {
    hide RequestFrame;
    assert ThreadInv(c, s, t);
    var p := PhaseOf(s, t);
    var f := RequestFrame(memory, p.r);
    assert Carries(f, p.r);
    assert [f] == Copies(f, 1);
    OthersKept(c, s, s', t);
  }

  lemma BusTimeOut(c: Config, s: State, s': State, t: Thread, unused: Image)
    requires BusInv(c, s) && TimeOut(s, s', t, unused)
    ensures BusInv(c, s')
  {
    hide Carries;
    assert ThreadInv(c, s, t);
    var p := PhaseOf(s, t);
    var sent := p.sent;
    assert sent + [p.frame] == Copies(p.frame, |sent| + 1);
    OthersKept(c, s, s', t);
  }

  lemma BusAnswer(c: Config, s: State, s': State, t: Thread)
    requires BusInv(c, s) && Answer(s, s', t)
    ensures BusInv(c, s')
  {
    hide Carries, Accepts;
    assert ThreadInv(c, s, t);
    OthersKept(c, s, s', t);
  }

  lemma BusOther(c: Config, s: State, s': State, step: Step)
    requires BusInv(c, s) && Next(c, s, s', step)
    requires step.BeginStep? || step.EnterStep? || step.LeaveStep? || step.FinishStep?
    ensures BusInv(c, s')
  {
    hide Carries, Lookup, Update;
    assert ThreadInv(c, s, step.t);
    OthersKept(c, s, s', step.t);
  }

  lemma BusStep(c: Config, s: State, s': State, step: Step)
    requires BusInv(c, s) && Next(c, s, s', step)
    ensures BusInv(c, s')
  {
    hide Drain, Wires, BusInv, Begin, Enter, Send, Answer, TimeOut, Leave, Finish;
    match step
    case ReceiveStep(chunk) => BusReceive(c, s, s', chunk);
    case SendStep(t, memory, written) => BusSend(c, s, s', t, memory, written);
    case AnswerStep(t) => BusAnswer(c, s, s', t);
    case TimeOutStep(t, unused) => BusTimeOut(c, s, s', t, unused);
    case _ => BusOther(c, s, s', step);
  }

  lemma BusReceive(c: Config, s: State, s': State, chunk: seq<byte>)
    requires BusInv(c, s) && Receive(s, s', chunk)
    ensures BusInv(c, s')
  {
    hide Drain, Wires, Carries;
    forall u ensures ThreadInv(c, s', u) {
      assert ThreadInv(c, s, u);
    }
  }

  /**
   In every execution: at most one thread is on the bus, each exchange sends at most three
   copies of one frame and at most one when repetition is off, and whenever `m_mutex` is free
   the repetition flag is what it was at the start.
   */
  lemma {:induction false} BusAlways(c: Config, run: seq<State>, steps: seq<Step>, i: nat)
    requires Execution(c, run, steps) && i < |run|
    ensures BusInv(c, run[i])
  {
    if i > 0 {
      BusAlways(c, run, steps, i - 1);
      BusStep(c, run[i - 1], run[i], steps[i - 1]);
    }
  }

  // ----- what is cached and what callers are told -----

  ghost predicate GoodReply(r: Request, reply: Image) {
    Accepts(r, reply) && IsFrame(reply)
  }

  ghost predicate ReplyInv(s: State, t: Thread) {
    match PhaseOf(s, t)
    case Finished(r, _, ok, reply, _) => ok ==> GoodReply(r, reply)
    case WantUpdate(r, ok, reply) => ok ==> GoodReply(r, reply)
    case Returned(r, answer) => answer.Some? ==> GoodReply(r, answer.value)
    case _ => true
  }

  ghost predicate CachedFrames(st: Store) {
    OwnKeys(st) && forall k | k in st.cache :: IsFrame(st.cache[k])
  }

  ghost predicate CacheInv(s: State) {
    && AllFrames(s.queue)
    && CachedFrames(s.store)
    && forall t :: ReplyInv(s, t)
  }

  lemma ReceivedFrames(s: State, s': State, chunk: seq<byte>)
    requires AllFrames(s.queue) && Receive(s, s', chunk)
    ensures AllFrames(s'.queue)
  {
    hide IsFrame, Wire, Drain;
    var n := |s.queue|;
    var tail := DrainConserves(s.buffer + chunk);
    var added := s'.queue[n..];
    forall p | p in s'.queue ensures IsFrame(p) {
      var j :| 0 <= j < |s'.queue| && s'.queue[j] == p;
      if j < n {
        assert p == s'.queue[..n][j];
      } else {
        assert p == added[j - n];
        assert Wires(added)[j - n] in Drain(s.buffer + chunk).frames;
        ImageOfWire(p);
      }
    }
  }

  lemma ImageOfWire(p: Image)
    requires IsFrame(Wire(p)) && |Wire(p)| == FrameLen(Wire(p))
    ensures IsFrame(p)
  {
    assert p == Wire(p) + p[FrameLen(p)..];
    FrameStable(Wire(p), p[FrameLen(p)..]);
  }

  lemma UpdateKeepsFrames(st: Store, trans: map<nat, nat>, r: Request, ok: bool, reply: Image)
    requires CachedFrames(st) && KeepsEnds(trans) && (ok ==> GoodReply(r, reply))
    ensures CachedFrames(Update(st, trans, r, ok, reply))
  {
    hide IsFrame, KeyOf, Translated, KeepsEnds;
    if ok && !r.save && RequestCode(r) in trans {
      KeptFrame(trans, reply);
    }
  }

  lemma FoundAccepts(st: Store, r: Request)
    requires OwnKeys(st) && Lookup(st, r).FromCache?
    ensures Accepts(r, Lookup(st, r).p)
  {
    var p := Lookup(st, r).p;
    KeyInjective(Src(p), Dest(p), Type(p), Fun(p), r.src, r.dest, r.ty, r.fun);
  }

  lemma CacheStep(c: Config, s: State, s': State, step: Step)
    requires CacheInv(s) && KeepsEnds(c.trans) && Next(c, s, s', step)
    ensures CacheInv(s')
  {
    hide IsFrame, Drain, Wires, Update, Lookup, RequestFrame, Accepts, KeepsEnds;
    if step.ReceiveStep? {
      ReceivedFrames(s, s', step.chunk);
      forall u ensures ReplyInv(s', u) { assert ReplyInv(s, u); }
    } else {
      var t := step.t;
      assert ReplyInv(s, t);
      match step {
        case BeginStep(_, r) =>
          if Lookup(s.store, r).FromCache? {
            FoundAccepts(s.store, r);
            FoundCached(s.store, r);
          }
        case FinishStep(_) =>
          var p := PhaseOf(s, t);
          UpdateKeepsFrames(s.store, c.trans, p.r, p.ok, p.reply);
        case _ =>
      }
      assert ReplyInv(s', t);
      forall u ensures ReplyInv(s', u) { assert ReplyInv(s, u); }
    }
  }

  lemma FoundCached(st: Store, r: Request)
    requires Lookup(st, r).FromCache?
    ensures RequestKey(r) in st.cache && Lookup(st, r).p == st.cache[RequestKey(r)]
  {
  }

  /**
   In every execution, whatever is received: each cache entry is a frame stored under its own
   identifier, translated entries included, and each answer given to a caller is a frame that
   matches the request. All that is asked of the translation map is `KeepsEnds`, and a map
   without it does turn some frame into something else (`KeepsFramesExactly`).
   */
  lemma {:induction false} CacheAlways(c: Config, run: seq<State>, steps: seq<Step>, i: nat)
    requires Execution(c, run, steps) && i < |run| && KeepsEnds(c.trans)
    ensures CacheInv(run[i])
  {
    if i > 0 {
      CacheAlways(c, run, steps, i - 1);
      CacheStep(c, run[i - 1], run[i], steps[i - 1]);
    }
  }

  /** In particular with the configured map. */
  lemma ConfiguredCacheAlways(c: Config, run: seq<State>, steps: seq<Step>, i: nat)
    requires Execution(c, run, steps) && i < |run| && c.trans == COMMAND_TRANSLATION
    ensures CacheInv(run[i])
  {
    ConfiguredKeepsEnds();
    CacheAlways(c, run, steps, i);
  }

  // ----- polling -----

  /** A saving call always goes to the bus, whatever is cached. */
  lemma SavingCallsAskTheDevice(c: Config, run: seq<State>, steps: seq<Step>, j: nat)
    requires Execution(c, run, steps) && j < |steps| && steps[j].BeginStep? && steps[j].r.save
    ensures PhaseOf(run[j + 1], steps[j].t) == WantBus(steps[j].r)
  {
    assert Next(c, run[j], run[j + 1], steps[j]);
  }

  /** And at its end the reply it got is in the cache under its own key, or its old entry is gone. */
  lemma SavingCallsRefresh(c: Config, run: seq<State>, steps: seq<Step>, j: nat)
    requires Execution(c, run, steps) && j < |steps| && steps[j].FinishStep?
    requires var p := PhaseOf(run[j], steps[j].t); p.WantUpdate? && p.r.save
    ensures var p, st := PhaseOf(run[j], steps[j].t), run[j + 1].store;
      && RequestCode(p.r) in st.block
      && (if p.ok then KeyOf(p.reply) in st.cache && st.cache[KeyOf(p.reply)] == p.reply
          else RequestKey(p.r) !in st.cache)
  {
    hide KeyOf, RequestKey, RequestCode;
    assert Next(c, run[j], run[j + 1], steps[j]);
  }

  /** What is cached and blocked changes when a call ends, and at no other step. */
  lemma StoreChangesAtTheEnd(c: Config, run: seq<State>, steps: seq<Step>, j: nat)
    requires Execution(c, run, steps) && j < |steps| && !steps[j].FinishStep?
    ensures run[j + 1].store == run[j].store
  {
    hide Drain, Wires, RequestFrame, Lookup, Update;
    assert Next(c, run[j], run[j + 1], steps[j]);
  }

  // ----- only queries are cached and blocked -----

  /** Light, curtain, air conditioning and meter queries: the calls that ask for saving. */
  const QUERY_CODES: set<nat> := {0x1E01, 0x1901, 0x1C01, 0x1F02}

  ghost predicate SavesQueriesOnly(s: State) {
    forall t :: !PhaseOf(s, t).Idle? && PhaseOf(s, t).r.save ==> RequestCode(PhaseOf(s, t).r) in QUERY_CODES
  }

  ghost predicate CodesInv(st: Store) {
    st.block <= QUERY_CODES && QueriesCached(st)
  }

  function PacketCode(p: Image): nat {
    CodeOf(Type(p), Fun(p))
  }

  ghost predicate QueriesCached(st: Store) {
    forall k | k in st.cache :: PacketCode(st.cache[k]) in QUERY_CODES
  }

  /** A reply of length byte 4 to a command whose replies are translated. */
  predicate ShortReply(r: Request, ok: bool, reply: Image) {
    ok && !r.save && RequestCode(r) in COMMAND_TRANSLATION && LengthByte(reply) == 4
  }

  lemma SameKeySameCode(p: Image, q: Image)
    requires KeyOf(p) == KeyOf(q)
    ensures PacketCode(p) == PacketCode(q)
  {
    KeyInjective(Src(p), Dest(p), Type(p), Fun(p), Src(q), Dest(q), Type(q), Fun(q));
  }

  lemma SameKeyAsRequest(p: Image, r: Request)
    requires KeyOf(p) == RequestKey(r)
    ensures PacketCode(p) == RequestCode(r)
  {
    KeyInjective(Src(p), Dest(p), Type(p), Fun(p), r.src, r.dest, r.ty, r.fun);
  }

  /** The checksum of the rewritten short reply lands on its function byte. */
  lemma ShortKeepsItsCode(r: Request, reply: Image)
    requires GoodReply(r, reply) && RequestCode(r) in COMMAND_TRANSLATION
    ensures PacketCode(Translated(reply, COMMAND_TRANSLATION[RequestCode(r)])) in QUERY_CODES <==> LengthByte(reply) != 4
  {
    hide Sum;
    var to := COMMAND_TRANSLATION[RequestCode(r)];
    ConfiguredTailSafeExactly(reply);
    if LengthByte(reply) == 4 {
      var m := reply[5 := Low(to / 256)][6 := Low(to)];
      assert Low(to / 256) == Type(reply) && Fun(reply) == 0x81;
      assert m[2..6] == reply[2..6];
      assert Translated(reply, to)[6] == reply[6];
    } else {
      TranslatedGood(reply, to);
    }
  }

  lemma CachedOne(st: Store, p: Image)
    requires OwnKeys(st)
    ensures QueriesCached(st.(cache := st.cache[KeyOf(p) := p]))
       <==> PacketCode(p) in QUERY_CODES && ForOthers(st, p)
    ensures PacketCode(p) in QUERY_CODES && ForOthers(st, p) ==> QueriesCached(st)
  {
    hide KeyOf, PacketCode;
    var st' := st.(cache := st.cache[KeyOf(p) := p]);
    if QueriesCached(st') {
      assert st'.cache[KeyOf(p)] == p;
      forall k | k in st.cache && k != KeyOf(p) ensures PacketCode(st.cache[k]) in QUERY_CODES {
        assert st'.cache[k] == st.cache[k];
      }
    }
    if KeyOf(p) in st.cache {
      SameKeySameCode(p, st.cache[KeyOf(p)]);
    }
  }

  ghost predicate ForOthers(st: Store, p: Image) {
    forall k | k in st.cache && k != KeyOf(p) :: PacketCode(st.cache[k]) in QUERY_CODES
  }

  /**
   One update keeps the cache to query codes exactly when it did so before and does not store a
   short reply; nothing that comes later takes such an entry out again.
   */
  lemma UpdateCodesExactly(st: Store, r: Request, ok: bool, reply: Image)
    requires OwnKeys(st) && (ok ==> GoodReply(r, reply))
    requires r.save ==> RequestCode(r) in QUERY_CODES
    ensures QueriesCached(Update(st, COMMAND_TRANSLATION, r, ok, reply))
       <==> QueriesCached(st) && !ShortReply(r, ok, reply)
  {
    hide IsFrame, KeyOf, Translated, PacketCode, RequestKey, CodeOf;
    if r.save {
      if ok {
        CachedOne(st, reply);
        assert PacketCode(reply) == RequestCode(r) by { AcceptedCode(r, reply); }
      } else {
        ErasedCode(st, r);
      }
    } else if ok && RequestCode(r) in COMMAND_TRANSLATION {
      ShortKeepsItsCode(r, reply);
      CachedOne(st, Translated(reply, COMMAND_TRANSLATION[RequestCode(r)]));
    }
  }

  lemma AcceptedCode(r: Request, reply: Image)
    requires Accepts(r, reply)
    ensures PacketCode(reply) == RequestCode(r)
  {
  }

  lemma ErasedCode(st: Store, r: Request)
    requires OwnKeys(st) && RequestCode(r) in QUERY_CODES
    ensures QueriesCached(st.(cache := st.cache - {RequestKey(r)})) <==> QueriesCached(st)
  {
    hide KeyOf, PacketCode, RequestKey, CodeOf;
    var st' := st.(cache := st.cache - {RequestKey(r)});
    if QueriesCached(st') {
      forall k | k in st.cache ensures PacketCode(st.cache[k]) in QUERY_CODES {
        if k == RequestKey(r) {
          SameKeyAsRequest(st.cache[k], r);
        } else {
          assert st'.cache[k] == st.cache[k];
        }
      }
    }
  }

  /** Step `j` stores a short reply. */
  ghost predicate StoresShort(run: seq<State>, steps: seq<Step>, j: nat)
    requires j < |steps| && |run| == |steps| + 1
  {
    && steps[j].FinishStep?
    && var p := PhaseOf(run[j], steps[j].t);
      p.WantUpdate? && ShortReply(p.r, p.ok, p.reply)
  }

  ghost predicate ShortStored(run: seq<State>, steps: seq<Step>, i: nat)
    requires |run| == |steps| + 1 && i < |run|
  {
    exists j: nat :: j < i && StoresShort(run, steps, j)
  }

  lemma ShortStoredLater(run: seq<State>, steps: seq<Step>, i: nat)
    requires |run| == |steps| + 1 && i < |steps|
    ensures ShortStored(run, steps, i + 1) <==> ShortStored(run, steps, i) || StoresShort(run, steps, i)
  {
    hide StoresShort;
  }

  lemma OneStepCodes(c: Config, run: seq<State>, steps: seq<Step>, i: nat)
    requires Execution(c, run, steps) && i < |steps| && c.trans == COMMAND_TRANSLATION
    requires SavesQueriesOnly(run[i]) && CacheInv(run[i])
    ensures QueriesCached(run[i + 1].store) <==> QueriesCached(run[i].store) && !StoresShort(run, steps, i)
    ensures run[i].store.block <= QUERY_CODES ==> run[i + 1].store.block <= QUERY_CODES
  {
    hide Update, QueriesCached, IsFrame, Drain, Wires, RequestFrame, ShortReply;
    var s := run[i];
    assert Next(c, s, run[i + 1], steps[i]);
    if steps[i].FinishStep? {
      var p := PhaseOf(s, steps[i].t);
      assert ReplyInv(s, steps[i].t);
      UpdateCodesExactly(s.store, p.r, p.ok, p.reply);
      UpdateBlock(s.store, c.trans, p.r, p.ok, p.reply);
    }
  }

  lemma UpdateBlock(st: Store, trans: map<nat, nat>, r: Request, ok: bool, reply: Image)
    ensures Update(st, trans, r, ok, reply).block == st.block + if r.save then {RequestCode(r)} else {}
  {
  }

  /**
   With the configured map, cached and blocked codes stay within the four query codes exactly
   as long as no short reply to a translated command was accepted: in every execution.
   */
  lemma {:induction false} CodesAlways(c: Config, run: seq<State>, steps: seq<Step>, i: nat)
    requires Execution(c, run, steps) && i < |run| && c.trans == COMMAND_TRANSLATION
    requires forall s | s in run :: SavesQueriesOnly(s)
    ensures run[i].store.block <= QUERY_CODES
    ensures CodesInv(run[i].store) <==> !ShortStored(run, steps, i)
  {
    if i > 0 {
      hide SavesQueriesOnly, CacheInv, QueriesCached, StoresShort, ShortStored, Next;
      CodesAlways(c, run, steps, i - 1);
      ConfiguredCacheAlways(c, run, steps, i - 1);
      assert run[i - 1] in run;
      OneStepCodes(c, run, steps, i - 1);
      ShortStoredLater(run, steps, i - 1);
    }
  }

  /** No other command would be answered from the cache or refused. */
  ghost predicate CommandsGoToBus(st: Store) {
    forall r | RequestCode(r) !in QUERY_CODES :: Lookup(st, r) == GoToBus
  }

  lemma CommandsGoToBusExactly(st: Store)
    requires OwnKeys(st) && st.block <= QUERY_CODES
    ensures CommandsGoToBus(st) <==> CodesInv(st)
  {
    hide KeyOf, PacketCode, RequestKey, RequestCode;
    if CodesInv(st) {
      forall r | RequestCode(r) !in QUERY_CODES ensures Lookup(st, r) == GoToBus {
        if RequestKey(r) in st.cache {
          SameKeyAsRequest(st.cache[RequestKey(r)], r);
        }
      }
    }
    if CommandsGoToBus(st) {
      forall k | k in st.cache ensures PacketCode(st.cache[k]) in QUERY_CODES {
        var p := st.cache[k];
        var r := Request(Src(p), Dest(p), Type(p), Fun(p), None, false, false);
        RequestOf(p, r);
        assert Lookup(st, r).FromCache?;
      }
    }
  }

  lemma RequestOf(p: Image, r: Request)
    requires r == Request(Src(p), Dest(p), Type(p), Fun(p), None, false, false)
    ensures RequestKey(r) == KeyOf(p) && RequestCode(r) == PacketCode(p)
  {
  }

  /**
   In every execution, at every moment: all other commands go to the bus if and only if no
   short reply to a translated command was accepted before.
   */
  lemma CommandsReachTheBus(c: Config, run: seq<State>, steps: seq<Step>, i: nat)
    requires Execution(c, run, steps) && i < |run| && c.trans == COMMAND_TRANSLATION
    requires forall s | s in run :: SavesQueriesOnly(s)
    ensures CommandsGoToBus(run[i].store) <==> !ShortStored(run, steps, i)
  {
    hide CommandsGoToBus, CodesInv, ShortStored, SavesQueriesOnly, Next;
    CodesAlways(c, run, steps, i);
    ConfiguredCacheAlways(c, run, steps, i);
    CommandsGoToBusExactly(run[i].store);
  }

  /** One forwarded command, from the look-up to the update, in a gateway that did nothing before. */
  function CommandRun(resend: bool, r: Request, f: seq<byte>, p: Image, rest: seq<byte>, updated: Store): seq<State> {
    var before := Store(map[], {});
    [State(before, [], [], resend, None, map[]),
     State(before, [], [], resend, None, map[0 := WantBus(r)]),
     State(before, [], [], false, Some(0), map[0 := Entered(r, resend)]),
     State(before, [], [], false, Some(0), map[0 := Waiting(r, resend, false, RESEND_COUNT, f, [f])]),
     State(before, rest, [p], false, Some(0), map[0 := Waiting(r, resend, false, RESEND_COUNT, f, [f])]),
     State(before, rest, [], false, Some(0), map[0 := Finished(r, resend, true, p, [f])]),
     State(before, rest, [], resend, None, map[0 := WantUpdate(r, true, p)]),
     State(updated, rest, [], resend, None, map[0 := Returned(r, Some(p))])]
  }

  lemma CommandSent(c: Config, run: seq<State>, r: Request, memory: Image, p: Image, rest: seq<byte>, updated: Store)
    requires r.stopResend && |Block(r.data)| < 256 && Lookup(Store(map[], {}), r) == GoToBus
    requires run == CommandRun(c.resend, r, RequestFrame(memory, r), p, rest, updated)
    ensures Init(c, run[0]) && Begin(run[0], run[1], 0, r) && Enter(run[1], run[2], 0) && Send(run[2], run[3], 0, memory, true)
  {
    hide RequestFrame, Lookup;
  }

  lemma CommandAnswered(c: Config, run: seq<State>, r: Request, f: seq<byte>, p: Image, rest: seq<byte>, updated: Store)
    requires r.stopResend && Accepts(r, p)
    requires updated == Update(Store(map[], {}), c.trans, r, true, p)
    requires run == CommandRun(c.resend, r, f, p, rest, updated)
    ensures Answer(run[4], run[5], 0) && Leave(run[5], run[6], 0) && Finish(c, run[6], run[7], 0)
  {
    hide Update, Accepts;
  }

  lemma CommandSavesNothing(resend: bool, r: Request, f: seq<byte>, p: Image, rest: seq<byte>, updated: Store)
    requires !r.save
    ensures forall s | s in CommandRun(resend, r, f, p, rest, updated) :: SavesQueriesOnly(s)
  {
  }

  lemma ShortReceived(s: State, s': State, p: Image)
    requires s.buffer == [] && s.queue == [] && p == Received(Zeros(STRUCT_SIZE), SHORT_REPLY)
    requires s' == s.(buffer := [HEAD0], queue := [p])
    ensures Receive(s, s', SHORT_REPLY + [HEAD0])
  {
    hide Drain;
    ShortReplyIsReceived();
    assert [] + (SHORT_REPLY + [HEAD0]) == SHORT_REPLY + [HEAD0];
    assert s'.queue[0..] == [p];
    assert Wire(p) == SHORT_REPLY;
    assert Wires([p]) == [SHORT_REPLY];
  }

  const SHORT_STEPS: seq<Step> :=
    [BeginStep(0, LIGHT_COMMAND), EnterStep(0), SendStep(0, Zeros(STRUCT_SIZE), true),
     ReceiveStep(SHORT_REPLY + [HEAD0]), AnswerStep(0), LeaveStep(0), FinishStep(0)]

  lemma SevenSteps(c: Config, run: seq<State>)
    requires |run| == 8 && Init(c, run[0])
    requires Begin(run[0], run[1], 0, LIGHT_COMMAND) && Enter(run[1], run[2], 0)
    requires Send(run[2], run[3], 0, Zeros(STRUCT_SIZE), true) && Receive(run[3], run[4], SHORT_REPLY + [HEAD0])
    requires Answer(run[4], run[5], 0) && Leave(run[5], run[6], 0) && Finish(c, run[6], run[7], 0)
    ensures Execution(c, run, SHORT_STEPS)
  {
    hide Init, Begin, Enter, Send, Receive, Answer, Leave, Finish;
  }

  lemma CommandRunFacts(resend: bool, r: Request, f: seq<byte>, p: Image, rest: seq<byte>, updated: Store)
    ensures var run := CommandRun(resend, r, f, p, rest, updated);
      && |run| == 8 && run[7].store == updated
      && run[3].buffer == [] && run[3].queue == [] && run[4] == run[3].(buffer := rest, queue := [p])
  {
  }

  /** It does happen: an execution after which the command just sent is answered from the cache. */
  lemma ShortReplyExecution(c: Config) returns (run: seq<State>)
    requires c.trans == COMMAND_TRANSLATION
    ensures |run| == 8 && Execution(c, run, SHORT_STEPS) && (forall s | s in run :: SavesQueriesOnly(s))
    ensures Lookup(run[7].store, LIGHT_COMMAND).FromCache?
  {
    var memory, r := Zeros(STRUCT_SIZE), LIGHT_COMMAND;
    var p := Received(memory, SHORT_REPLY);
    ShortReplyIsCached(memory);
    assert Lookup(Store(map[], {}), r) == GoToBus && |Block(r.data)| < 256;
    hide RequestFrame, Update, IsFrame, Received, RequestKey, Accepts, Lookup, SavesQueriesOnly, CommandRun;
    hide Init, Begin, Enter, Send, Receive, Answer, Leave, Finish, Execution;
    var f, updated := RequestFrame(memory, r), Update(Store(map[], {}), c.trans, r, true, p);
    run := CommandRun(c.resend, r, f, p, [HEAD0], updated);
    CommandRunFacts(c.resend, r, f, p, [HEAD0], updated);
    CommandSent(c, run, r, memory, p, [HEAD0], updated);
    ShortReceived(run[3], run[4], p);
    CommandAnswered(c, run, r, f, p, [HEAD0], updated);
    CommandSavesNothing(c.resend, r, f, p, [HEAD0], updated);
    SevenSteps(c, run);
  }

  lemma {:induction false} BlockGrows(c: Config, run: seq<State>, steps: seq<Step>, i: nat, j: nat)
    requires Execution(c, run, steps) && i <= j < |run|
    ensures run[i].store.block <= run[j].store.block
  {
    if i < j {
      BlockGrows(c, run, steps, i, j - 1);
      assert Next(c, run[j - 1], run[j], steps[j - 1]);
    }
  }

  /** Once a code is blocked, no later look-up of a non-saving call sends it to the bus. */
  lemma BlockedStaysOffTheBus(c: Config, run: seq<State>, steps: seq<Step>, i: nat, j: nat)
    requires Execution(c, run, steps) && i <= j < |steps|
    requires steps[j].BeginStep? && !steps[j].r.save && RequestCode(steps[j].r) in run[i].store.block
    ensures PhaseOf(run[j + 1], steps[j].t).Returned?
  {
    BlockGrows(c, run, steps, i, j);
    assert Next(c, run[j], run[j + 1], steps[j]);
  }
}
