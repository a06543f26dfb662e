/** Sequential calls of the gateway: what the cache says about the past. */
module Freshness {
  import opened Bytes
  import opened Packets
  import opened Stream
  import opened Gateway

  /** One call together with what the bus answers should the call get that far. */
  datatype Call = Call(r: Request, ok: bool, reply: Image)

  function Perform(st: Store, trans: map<nat, nat>, c: Call): Store {
    if Lookup(st, c.r) == GoToBus then Update(st, trans, c.r, c.ok, c.reply) else st
  }

  /** The store after a run of calls that started with an empty one. */
  function After(trans: map<nat, nat>, calls: seq<Call>): Store {
    if calls == [] then Store(map[], {})
    else Perform(After(trans, calls[..|calls| - 1]), trans, calls[|calls| - 1])
  }

  /** A device that answers under the source address it was asked from, with a whole frame. */
  ghost predicate Echoed(trans: map<nat, nat>, c: Call) {
    c.ok ==> Accepts(c.r, c.reply) && IsFrame(c.reply) && TailSafe(trans, c.reply) && Src(c.reply) == c.r.src
  }

  /** What a call that used the bus means for the query `k`: a new reply, or none to be had. */
  datatype Event = NoEvent | Fresh(reply: Image) | Gone

  function EventOn(trans: map<nat, nat>, c: Call, k: nat): Event {
    if c.r.save then
      if RequestKey(c.r) != k then NoEvent
      else if c.ok then Fresh(c.reply) else Gone
    else if c.ok && RequestCode(c.r) in trans
         && Key(c.r.src, c.r.dest, Low(trans[RequestCode(c.r)] / 256), Low(trans[RequestCode(c.r)])) == k then
      Fresh(Translated(c.reply, trans[RequestCode(c.r)]))
    else NoEvent
  }

  /** Calls answered without the bus are no events. */
  function BusEvent(trans: map<nat, nat>, calls: seq<Call>, k: nat): Event
    requires calls != []
  {
    var last := calls[|calls| - 1];
    if Lookup(After(trans, calls[..|calls| - 1]), last.r) == GoToBus then EventOn(trans, last, k) else NoEvent
  }

  /** The last event in the run that concerns `k`. */
  function Latest(trans: map<nat, nat>, calls: seq<Call>, k: nat): Event {
    if calls == [] then Gone
    else if BusEvent(trans, calls, k) != NoEvent then BusEvent(trans, calls, k)
    else Latest(trans, calls[..|calls| - 1], k)
  }

  lemma TranslatedKey(trans: map<nat, nat>, c: Call)
    requires c.ok && Echoed(trans, c) && RequestCode(c.r) in trans
    ensures var to := trans[RequestCode(c.r)];
      KeyOf(Translated(c.reply, to)) == Key(c.r.src, c.r.dest, Low(to / 256), Low(to))
  {
    TranslatedGood(c.reply, trans[RequestCode(c.r)]);
  }

  /** An entry is the latest event for its query, and there is an entry just when that is a reply. */
  lemma {:induction false} CacheIsLatest(trans: map<nat, nat>, calls: seq<Call>, k: nat)
    requires forall c | c in calls :: Echoed(trans, c)
    ensures var st := After(trans, calls);
      Latest(trans, calls, k) == if k in st.cache then Fresh(st.cache[k]) else Gone
  {
    if calls != [] {
      hide Key, IsFrame, Translated;
      var front, c := calls[..|calls| - 1], calls[|calls| - 1];
      CacheIsLatest(trans, front, k);
      if c.ok && RequestCode(c.r) in trans {
        TranslatedKey(trans, c);
      }
      assert Echoed(trans, c);
    }
  }

  /** A query that does not go to the bus returns precisely the latest event for its key. */
  lemma QueryReturnsLatest(trans: map<nat, nat>, calls: seq<Call>, r: Request)
    requires forall c | c in calls :: Echoed(trans, c)
    requires !r.save
    ensures forall p :: Lookup(After(trans, calls), r) == FromCache(p)
                   <==> Latest(trans, calls, RequestKey(r)) == Fresh(p)
  {
    CacheIsLatest(trans, calls, RequestKey(r));
  }

  /**
   The echo of the source address is needed: a saved reply can be found again by the same
   request exactly when the device answered under the address it was asked from.
   */
  lemma SavedReplyFoundExactly(st: Store, trans: map<nat, nat>, r: Request, reply: Image)
    requires OwnKeys(st) && r.save && Accepts(r, reply)
    ensures Lookup(Update(st, trans, r, true, reply), r.(save := false)) == FromCache(reply)
       <==> Src(reply) == r.src
  {
    UpdateKeepsOwnKeys(st, trans, r, true, reply);
    if KeyOf(reply) == RequestKey(r) {
      KeyInjective(Src(reply), Dest(reply), Type(reply), Fun(reply), r.src, r.dest, r.ty, r.fun);
    }
  }

  // ----- polling -----

  lemma AfterMore(trans: map<nat, nat>, calls: seq<Call>, c: Call)
    ensures After(trans, calls + [c]) == Perform(After(trans, calls), trans, c)
  {
    assert (calls + [c])[..|calls|] == calls;
  }

  /**
   A saving query always asks the device: whatever came before, afterwards the entry for its key
   is the reply just received, or there is none.
   */
  lemma PollRefreshes(trans: map<nat, nat>, calls: seq<Call>, c: Call)
    requires c.r.save && Echoed(trans, c)
    ensures var cache := After(trans, calls + [c]).cache;
      if c.ok then RequestKey(c.r) in cache && cache[RequestKey(c.r)] == c.reply else RequestKey(c.r) !in cache
  {
    hide IsFrame, TailSafe;
    AfterMore(trans, calls, c);
  }

  /** An entry for another key is not touched by it. */
  lemma PollKeepsOthers(trans: map<nat, nat>, calls: seq<Call>, c: Call, k: nat)
    requires c.r.save && Echoed(trans, c) && k != RequestKey(c.r)
    ensures var before, after := After(trans, calls).cache, After(trans, calls + [c]).cache;
      (k in after <==> k in before) && (k in before ==> after[k] == before[k])
  {
    hide IsFrame, TailSafe;
    AfterMore(trans, calls, c);
  }

  /** Some earlier call saved replies of this type and function. */
  ghost predicate SavedBefore(calls: seq<Call>, code: nat) {
    exists c :: c in calls && c.r.save && RequestCode(c.r) == code
  }

  lemma {:induction false} BlockIsSaved(trans: map<nat, nat>, calls: seq<Call>, code: nat)
    ensures code in After(trans, calls).block <==> SavedBefore(calls, code)
  {
    if calls != [] {
      hide RequestCode, RequestKey, Translated, KeyOf;
      var front, c := calls[..|calls| - 1], calls[|calls| - 1];
      BlockIsSaved(trans, front, code);
      assert calls == front + [c];
    }
  }

  /**
   A non-saving call is refused if and only if its key has no reply to show and a call of its
   type and function saved before; with neither, it goes to the device.
   */
  lemma RefusedExactly(trans: map<nat, nat>, calls: seq<Call>, r: Request)
    requires forall c | c in calls :: Echoed(trans, c)
    requires !r.save
    ensures Lookup(After(trans, calls), r) == Refused
       <==> Latest(trans, calls, RequestKey(r)) == Gone && SavedBefore(calls, RequestCode(r))
    ensures Lookup(After(trans, calls), r) == GoToBus
       <==> Latest(trans, calls, RequestKey(r)) == Gone && !SavedBefore(calls, RequestCode(r))
  {
    hide After, Latest, SavedBefore, Echoed, RequestCode, RequestKey;
    CacheIsLatest(trans, calls, RequestKey(r));
    BlockIsSaved(trans, calls, RequestCode(r));
  }

  // ----- commands -----

  /** The packet `p` with another type, function and checksum. */
  ghost predicate SameButCodes(p: Image, q: Image) {
    && IsFrame(q) && q[2] == p[2] && q[3] == p[3] && q[4] == p[4]
    && forall i | 7 <= i < LengthByte(p) + 2 :: q[i] == p[i]
  }

  lemma RewrittenSame(p: Image, ty: byte, fun: byte, ty': byte, fun': byte)
    requires IsFrame(p) && Type(p) == ty' && Fun(p) == fun' && LengthByte(p) >= 5
    ensures var q := Translated(p, CodeOf(ty, fun)); SameButCodes(p, q) && q[5] == ty && q[6] == fun
  {
    hide Sum;
    TranslationExactly(p, ty, fun);
    assert CodeOf(ty, fun) / 256 == ty && CodeOf(ty, fun) % 256 == fun;
  }

  /**
   A command whose reply counts as the reply to a query answers that query from then on: with the
   codes of the query, the addresses and the data of the reply, and a checksum that fits.
   */
  lemma CommandAnswersQuery(trans: map<nat, nat>, calls: seq<Call>, c: Call, q: Request)
    requires (forall e | e in calls :: Echoed(trans, e)) && Echoed(trans, c)
    requires !c.r.save && c.ok && LengthByte(c.reply) >= 5
    requires Latest(trans, calls, RequestKey(c.r)) == Gone && !SavedBefore(calls, RequestCode(c.r))
    requires RequestCode(c.r) in trans && trans[RequestCode(c.r)] == CodeOf(q.ty, q.fun)
    requires !q.save && q.src == c.r.src && q.dest == c.r.dest
    ensures var a := Lookup(After(trans, calls + [c]), q);
      a.FromCache? && SameButCodes(c.reply, a.p) && a.p[5] == q.ty && a.p[6] == q.fun
  {
    hide IsFrame, TailSafe, Translated, SameButCodes, Latest, SavedBefore, After, Perform;
    RefusedExactly(trans, calls, c.r);
    AfterMore(trans, calls, c);
    CodeParts(q.ty, q.fun);
    CommandPerformed(After(trans, calls), trans, c, q);
    RewrittenSame(c.reply, q.ty, q.fun, c.r.ty, c.r.fun);
  }

  lemma CodeParts(ty: byte, fun: byte)
    ensures CodeOf(ty, fun) / 256 == ty && CodeOf(ty, fun) % 256 == fun
  {
  }

  lemma CommandPerformed(st: Store, trans: map<nat, nat>, c: Call, q: Request)
    requires Echoed(trans, c) && Lookup(st, c.r) == GoToBus && !c.r.save && c.ok
    requires RequestCode(c.r) in trans && trans[RequestCode(c.r)] == CodeOf(q.ty, q.fun)
    requires !q.save && q.src == c.r.src && q.dest == c.r.dest
    ensures Lookup(Perform(st, trans, c), q) == FromCache(Translated(c.reply, CodeOf(q.ty, q.fun)))
  {
    hide IsFrame, TailSafe, Translated, CodeOf;
    CodeParts(q.ty, q.fun);
    TranslatedKey(trans, c);
  }

  /** A call that does not save changes nothing unless it succeeded with a command of that kind. */
  lemma OtherCallsKeepAll(trans: map<nat, nat>, calls: seq<Call>, c: Call)
    requires !c.r.save
    ensures After(trans, calls + [c]).block == After(trans, calls).block
    ensures !c.ok || RequestCode(c.r) !in trans ==> After(trans, calls + [c]) == After(trans, calls)
  {
    hide Translated, KeyOf;
    AfterMore(trans, calls, c);
  }
}
