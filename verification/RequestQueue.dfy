/** The request queue over whole runs: which responses go out, and which requests stay pending. */
module RequestQueue {
  import opened Bytes
  import opened Buffers
  import opened Packets
  import opened Comm

  /**
   What can happen to the queue, one atomic step each: the receiving thread pushes a packet, a
   handler takes the newest one, a frame is sent that clears the queue, a response is due.
   */
  datatype Event = Arrive(p: Image) | TakeNewest | Discard | Respond(requestId: byte)

  function Apply(queue: seq<Image>, e: Event): seq<Image> {
    match e
    case Arrive(p) => queue + [p]
    case TakeNewest => []
    case Discard => []
    case Respond(id) => RespondQueue(queue, id)
  }

  /** The queue after a run of events from the empty queue. */
  function QueueAfter(run: seq<Event>): seq<Image> {
    if run == [] then [] else Apply(QueueAfter(run[..|run| - 1]), run[|run| - 1])
  }

  /** The response due at `k` is handed to the serial line. */
  predicate Sent(run: seq<Event>, k: nat)
    requires k < |run| && run[k].Respond?
  {
    !Withheld(QueueAfter(run[..k]), run[k].requestId)
  }

  /**
   Told from the history alone: the request that arrived at `i` is pending when nothing arrived
   since, nothing emptied the queue since, and only responses to other requests were due since.
   */
  ghost predicate Pending(run: seq<Event>, i: int) {
    && 0 <= i < |run| && run[i].Arrive?
    && forall j | i < j < |run| :: run[j].Respond? && run[j].requestId != PacketId(run[i].p)
  }

  lemma PendingLater(run: seq<Event>, e: Event, i: nat)
    requires i < |run|
    ensures Pending(run + [e], i)
       <==> Pending(run, i) && e.Respond? && e.requestId != PacketId(run[i].p)
  {
    hide PacketId;
    var run' := run + [e];
    assert run'[|run|] == e && forall j | 0 <= j < |run| :: run'[j] == run[j];
  }

  /** The last element of the queue is the pending request, and the queue is empty without one. */
  lemma {:induction false} PendingIsNewest(run: seq<Event>)
    ensures forall i | Pending(run, i) :: Newest(QueueAfter(run)) == Some(run[i].p)
    ensures Newest(QueueAfter(run)).Some? ==> exists i :: Pending(run, i)
  {
    if run != [] {
      hide PacketId, Pending;
      var front, e := run[..|run| - 1], run[|run| - 1];
      assert run == front + [e];
      PendingIsNewest(front);
      forall i | 0 <= i < |front|
        ensures Pending(run, i) <==> Pending(front, i) && e.Respond? && e.requestId != PacketId(front[i].p)
        ensures Pending(front, i) ==> front[i].Arrive? && run[i] == front[i]
      {
        PendingLater(front, e, i);
        PendingBounds(front, i);
      }
      forall i | Pending(run, i) ensures 0 <= i < |run| && run[i].Arrive? {
        PendingBounds(run, i);
      }
      if e.Arrive? {
        LatestArrivalPending(front, e);
      }
    }
  }

  lemma PendingBounds(run: seq<Event>, i: int)
    ensures Pending(run, i) ==> 0 <= i < |run| && run[i].Arrive?
  {
  }

  lemma LatestArrivalPending(front: seq<Event>, e: Event)
    requires e.Arrive?
    ensures Pending(front + [e], |front|)
  {
  }

  /** A response goes out if and only if no other request is pending. */
  lemma ResponseSentExactly(run: seq<Event>, k: nat)
    requires k < |run| && run[k].Respond?
    ensures Sent(run, k)
       <==> forall i | Pending(run[..k], i) :: PacketId(run[i].p) == run[k].requestId
  {
    hide PacketId, Pending;
    PendingIsNewest(run[..k]);
    forall i ensures Pending(run[..k], i) ==> 0 <= i < k && run[i] == run[..k][i] && run[i].Arrive? {
      PendingBounds(run[..k], i);
    }
  }

  /** A withheld response leaves the newest request as the only element of the queue. */
  lemma WithheldKeepsNewest(run: seq<Event>, k: nat)
    requires k < |run| && run[k].Respond? && !Sent(run, k)
    ensures exists i :: Pending(run[..k], i) && Pending(run[..k + 1], i) && QueueAfter(run[..k + 1]) == [run[i].p]
  {
    hide PacketId;
    PendingIsNewest(run[..k]);
    var i :| Pending(run[..k], i);
    assert run[..k + 1] == run[..k] + [run[k]];
    PendingLater(run[..k], run[k], i);
  }

  /** A response that goes out leaves no request behind. */
  lemma SentEmptiesTheQueue(run: seq<Event>, k: nat)
    requires k < |run| && run[k].Respond? && Sent(run, k)
    ensures var after := run[..k + 1];
      QueueAfter(after) == [] && forall i :: !Pending(after, i)
  {
    assert run[..k + 1][..k] == run[..k];
    PendingIsNewest(run[..k + 1]);
  }

  /**
   One cycle of the handler: it takes the newest request, works on it while others arrive, and
   answers. The answer goes out exactly when nothing arrived or the latest arrival has its
   identifier; repeated requests do not get in its way.
   */
  lemma CycleAnswersExactly(run: seq<Event>, k: nat, r: nat)
    requires k < r < |run| && run[k].TakeNewest? && run[r].Respond?
    requires forall j | k < j < r :: run[j].Arrive?
    ensures Sent(run, r) <==> r == k + 1 || PacketId(run[r - 1].p) == run[r].requestId
    ensures QueueAfter(run[..r + 1]) == if Sent(run, r) then [] else [run[r - 1].p]
  {
    hide PacketId;
    assert run[..r][..r - 1] == run[..r - 1] && run[..r + 1][..r] == run[..r];
  }

  /**
   A handler that was overtaken stays silent: once another request came in, its response is
   withheld however often it is tried and however many further requests of others arrive.
   */
  lemma {:induction false} OvertakenStaysSilent(run: seq<Event>, i: nat, k: nat, id: byte)
    requires i < k < |run| && run[i].Arrive? && PacketId(run[i].p) != id
    requires run[k] == Respond(id)
    requires forall j | i < j < k ::
      (run[j].Arrive? && PacketId(run[j].p) != id) || run[j] == Respond(id)
    ensures !Sent(run, k)
  {
    NewestOfOthers(run, i, k, id);
  }

  lemma {:induction false} NewestOfOthers(run: seq<Event>, i: nat, k: nat, id: byte)
    requires i < k <= |run| && run[i].Arrive? && PacketId(run[i].p) != id
    requires forall j | i < j < k ::
      (run[j].Arrive? && PacketId(run[j].p) != id) || run[j] == Respond(id)
    ensures var q := QueueAfter(run[..k]);
      q != [] && PacketId(q[|q| - 1]) != id
  {
    hide PacketId;
    assert run[..k][..k - 1] == run[..k - 1];
    if i < k - 1 {
      NewestOfOthers(run, i, k - 1, id);
    }
  }
}
