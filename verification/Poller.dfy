/** The polling thread of repeat_comm.cpp: whose turn it is, and what a turn puts on the bus. */
module Poller {
  import opened Bytes

  const LIGHT: byte := 0
  const CURTAIN: byte := 1
  const AIRCONDITION: byte := 2
  const METER: byte := 3
  const HUMAN_GROUP: byte := 4

  const MAX_LIGHT: byte := 8
  const MAX_CURTAIN: byte := 8
  const MAX_AIRCONDITION: byte := 8
  const MAX_METER: byte := 4
  const MAX_HUMAN_GROUP: byte := 8

  const ATTEMPTS := 3

  datatype DevInfo = DevInfo(ty: byte, addr: byte, opt: byte)
  datatype DevCount = DevCount(ty: byte, count: byte)

  function Min(a: byte, b: byte): byte {
    if a < b then a else b
  }

  // ----- the list of devices -----

  /** `RawGetDeviceCount` on the five count bytes of the record. */
  function DeviceCounts(record: seq<byte>): seq<DevCount>
    requires |record| == 5
  {
    [DevCount(LIGHT, Min(record[0], MAX_LIGHT)),
     DevCount(CURTAIN, Min(record[1], MAX_CURTAIN)),
     DevCount(AIRCONDITION, Min(record[2], MAX_AIRCONDITION)),
     DevCount(METER, Min(record[3], MAX_METER)),
     DevCount(HUMAN_GROUP, Min(record[4], MAX_HUMAN_GROUP))]
  }

  predicate Polled(ty: byte) {
    ty == LIGHT || ty == CURTAIN || ty == AIRCONDITION || ty == METER
  }

  function Addresses(ty: byte, count: byte): (s: seq<DevInfo>)
    ensures |s| == count
  {
    seq(count, i requires 0 <= i < count => DevInfo(ty, Low(i + 1), 0))
  }

  function DeviceList(devs: seq<DevCount>): seq<DevInfo> {
    if devs == [] then []
    else
      var d := devs[|devs| - 1];
      DeviceList(devs[..|devs| - 1]) + if Polled(d.ty) then Addresses(d.ty, d.count) else []
  }

  /** A device whatever its option. */
  predicate Same(d: DevInfo, e: DevInfo) {
    d.ty == e.ty && d.addr == e.addr
  }

  ghost predicate Distinct(q: seq<DevInfo>) {
    forall i, j | 0 <= i < j < |q| :: !Same(q[i], q[j])
  }

  predicate NoOptions(q: seq<DevInfo>) {
    forall d | d in q :: d.opt == 0
  }

  lemma {:induction false} DeviceListMembers(devs: seq<DevCount>)
    requires forall i, j | 0 <= i < j < |devs| :: devs[i].ty != devs[j].ty
    requires forall d | d in devs :: d.count < 255
    ensures Distinct(DeviceList(devs)) && NoOptions(DeviceList(devs))
    ensures forall d: DevInfo :: d in DeviceList(devs) <==>
      d.opt == 0 && Polled(d.ty) && exists c :: c in devs && c.ty == d.ty && 1 <= d.addr <= c.count
  {
    if devs != [] {
      var front, c := devs[..|devs| - 1], devs[|devs| - 1];
      DeviceListMembers(front);
      AddressMembers(c.ty, c.count);
      assert forall k | k in front :: k.ty != c.ty;
      assert devs == front + [c];
    }
  }

  lemma LowOfSmall(n: nat)
    requires n < 256
    ensures Low(n) == n
  {
  }

  lemma AddressMembers(ty: byte, count: byte)
    requires count < 255
    ensures Distinct(Addresses(ty, count))
    ensures forall d: DevInfo :: d in Addresses(ty, count) <==> d.ty == ty && d.opt == 0 && 1 <= d.addr <= count
  {
    hide Low;
    var s := Addresses(ty, count);
    forall i | 0 <= i < count ensures s[i] == DevInfo(ty, i + 1, 0) {
      LowOfSmall(i + 1);
    }
    forall d: DevInfo | d.ty == ty && d.opt == 0 && 1 <= d.addr <= count ensures d in s {
      assert s[d.addr - 1] == d;
    }
  }

  /** The poller's list holds each configured device, up to the limit of its kind, exactly once. */
  lemma ConfiguredDevices(record: seq<byte>)
    requires |record| == 5
    ensures var q := DeviceList(DeviceCounts(record));
      && Distinct(q) && NoOptions(q)
      && forall d: DevInfo :: d in q <==>
           d.opt == 0 && d.ty < 4 && 1 <= d.addr <= record[d.ty] && d.addr <= (if d.ty == METER then 4 else 8)
  {
    var devs := DeviceCounts(record);
    DeviceListMembers(devs);
    hide DeviceList;
    assert devs[0] in devs && devs[1] in devs && devs[2] in devs && devs[3] in devs;
    forall d: DevInfo | d.ty < 4
      ensures (exists c :: c in devs && c.ty == d.ty && 1 <= d.addr <= c.count) <==> 1 <= d.addr <= devs[d.ty].count
    {
      assert devs[d.ty].ty == d.ty;
    }
  }

  /** Lights, curtains, air conditioners, meters, and the addresses of each kind from 1 up. */
  ghost predicate InOrder(q: seq<DevInfo>) {
    forall i, j | 0 <= i < j < |q| :: q[i].ty < q[j].ty || (q[i].ty == q[j].ty && q[i].addr < q[j].addr)
  }

  lemma AddressesInOrder(ty: byte, count: byte)
    requires count < 255
    ensures InOrder(Addresses(ty, count)) && forall d | d in Addresses(ty, count) :: d.ty == ty
  {
    hide Low;
    forall i | 0 <= i < count ensures Addresses(ty, count)[i] == DevInfo(ty, i + 1, 0) {
      LowOfSmall(i + 1);
    }
  }

  lemma {:induction false} KindsBelow(devs: seq<DevCount>, ty: byte)
    requires forall c | c in devs :: c.ty < ty && c.count < 255
    ensures forall d | d in DeviceList(devs) :: d.ty < ty
  {
    if devs != [] {
      var c := devs[|devs| - 1];
      KindsBelow(devs[..|devs| - 1], ty);
      AddressesInOrder(c.ty, c.count);
      assert c in devs;
    }
  }

  lemma JoinInOrder(q: seq<DevInfo>, r: seq<DevInfo>, ty: byte)
    requires InOrder(q) && InOrder(r)
    requires (forall d | d in q :: d.ty < ty) && (forall d | d in r :: d.ty == ty)
    ensures InOrder(q + r)
  {
    var s := q + r;
    forall i, j | 0 <= i < j < |s| ensures s[i].ty < s[j].ty || (s[i].ty == s[j].ty && s[i].addr < s[j].addr) {
      if i < |q| <= j {
        assert q[i] in q && r[j - |q|] in r;
      }
    }
  }

  lemma {:induction false} ListInOrder(devs: seq<DevCount>)
    requires forall i, j | 0 <= i < j < |devs| :: devs[i].ty < devs[j].ty
    requires forall d | d in devs :: d.count < 255
    ensures InOrder(DeviceList(devs))
  {
    if devs != [] {
      hide InOrder, Addresses;
      var front, c := devs[..|devs| - 1], devs[|devs| - 1];
      ListInOrder(front);
      KindsBelow(front, c.ty);
      AddressesInOrder(c.ty, c.count);
      NothingInOrder();
      JoinInOrder(DeviceList(front), if Polled(c.ty) then Addresses(c.ty, c.count) else [], c.ty);
    }
  }

  lemma NothingInOrder()
    ensures InOrder([])
  {
  }

  /** The order in which they have their first turns. */
  lemma DevicesInOrder(record: seq<byte>)
    requires |record| == 5
    ensures InOrder(DeviceList(DeviceCounts(record)))
  {
    hide DeviceList;
    ListInOrder(DeviceCounts(record));
  }

  // ----- turns -----

  /** A request for time synchronization marks every meter. */
  function Marked(q: seq<DevInfo>): (r: seq<DevInfo>)
    ensures |r| == |q|
  {
    seq(|q|, i requires 0 <= i < |q| => if q[i].ty == METER then q[i].(opt := 1) else q[i])
  }

  function Requested(q: seq<DevInfo>, sync: bool): (r: seq<DevInfo>)
    ensures |r| == |q|
  {
    if sync then Marked(q) else q
  }

  function AfterTurn(d: DevInfo): DevInfo {
    if d.ty == METER then d.(opt := 0) else d
  }

  /** One round: the front has its turn and goes to the back. */
  function Advance(q: seq<DevInfo>, sync: bool): (r: seq<DevInfo>)
    ensures |r| == |q|
  {
    if q == [] then []
    else Requested(q, sync)[1..] + [AfterTurn(Requested(q, sync)[0])]
  }

  /** The queue after as many rounds without a change of devices as `syncs` is long. */
  function QueueAfter(q: seq<DevInfo>, syncs: seq<bool>): (r: seq<DevInfo>)
    ensures |r| == |q|
  {
    if syncs == [] then q
    else Advance(QueueAfter(q, syncs[..|syncs| - 1]), syncs[|syncs| - 1])
  }

  /** The device that has its turn in round `k`, as it is then. */
  function TurnOf(q: seq<DevInfo>, syncs: seq<bool>, k: nat): DevInfo
    requires q != [] && k < |syncs|
  {
    Requested(QueueAfter(q, syncs[..k]), syncs[k])[0]
  }

  /** All turns so far, in order. */
  function TurnsOf(q: seq<DevInfo>, syncs: seq<bool>): seq<DevInfo> {
    if q == [] || syncs == [] then []
    else TurnsOf(q, syncs[..|syncs| - 1]) + [TurnOf(q, syncs, |syncs| - 1)]
  }

  lemma {:induction false} TurnsAt(q: seq<DevInfo>, syncs: seq<bool>)
    requires q != []
    ensures |TurnsOf(q, syncs)| == |syncs|
    ensures forall k | 0 <= k < |syncs| :: TurnsOf(q, syncs)[k] == TurnOf(q, syncs, k)
  {
    if syncs != [] {
      hide TurnOf;
      var front := syncs[..|syncs| - 1];
      TurnsAt(q, front);
      forall k | 0 <= k < |front| ensures TurnOf(q, front, k) == TurnOf(q, syncs, k) {
        TurnKnownEarly(q, syncs, k);
      }
    }
  }

  lemma TurnKnownEarly(q: seq<DevInfo>, syncs: seq<bool>, k: nat)
    requires q != [] && k < |syncs| - 1
    ensures TurnOf(q, syncs[..|syncs| - 1], k) == TurnOf(q, syncs, k)
  {
    assert syncs[..|syncs| - 1][..k] == syncs[..k];
  }

  /** A turn that sends the time instead of a query. */
  predicate TimeSync(d: DevInfo) {
    d.ty == METER && d.opt != 0
  }

  /** A request came in one of the rounds from `from` until before `to`. */
  ghost predicate RequestIn(syncs: seq<bool>, from: int, to: int) {
    exists s :: 0 <= s < |syncs| && from <= s < to && syncs[s]
  }

  /** The place in a list of `n` devices that round `k` comes to. */
  function Place(k: nat, n: nat): (p: nat)
    requires n > 0
    ensures p < n
  {
    if k < n then k else Place(k - n, n)
  }

  /** What stands at index `i` after `k` rounds: the device the cycle says, and for a meter whether
      a request came in since its last turn. */
  ghost predicate Stands(d: DevInfo, q: seq<DevInfo>, syncs: seq<bool>, k: nat, i: nat)
    requires q != []
  {
    && Same(d, q[Place(k + i, |q|)])
    && (TimeSync(d) <==> d.ty == METER && RequestIn(syncs, k + i - |q| + 1, k))
  }

  lemma RequestExtended(syncs: seq<bool>, from: int, k: nat)
    requires k < |syncs| && from <= k
    ensures RequestIn(syncs, from, k + 1) <==> RequestIn(syncs, from, k) || syncs[k]
  {
  }

  lemma AdvanceAt(q: seq<DevInfo>, sync: bool, i: nat)
    requires i < |q|
    ensures Advance(q, sync)[i] ==
      if i < |q| - 1 then Requested(q, sync)[i + 1] else AfterTurn(Requested(q, sync)[0])
  {
  }

  lemma MovesUp(d: DevInfo, q: seq<DevInfo>, syncs: seq<bool>, k: nat, i: nat)
    requires k < |syncs| && i + 1 < |q| && Stands(d, q, syncs, k, i + 1)
    ensures Stands(Requested([d], syncs[k])[0], q, syncs, k + 1, i)
  {
    RequestExtended(syncs, k + 1 + i - |q| + 1, k);
    assert k + (i + 1) == (k + 1) + i;
    hide RequestIn, Place;
  }

  lemma GoesToTheBack(d: DevInfo, q: seq<DevInfo>, syncs: seq<bool>, k: nat)
    requires q != [] && k < |syncs| && Stands(d, q, syncs, k, 0)
    ensures Stands(AfterTurn(Requested([d], syncs[k])[0]), q, syncs, k + 1, |q| - 1)
  {
    assert Place(k + |q|, |q|) == Place(k, |q|);
    assert k + 0 == k && k + |q| == (k + 1) + (|q| - 1);
  }

  lemma {:induction false} QueueRotates(q: seq<DevInfo>, syncs: seq<bool>, k: nat, i: nat)
    requires NoOptions(q) && k <= |syncs| && i < |q|
    ensures Stands(QueueAfter(q, syncs[..k])[i], q, syncs, k, i)
    decreases k
  {
    if k == 0 {
      assert Place(i, |q|) == i && q[i] in q;
    } else {
      var before, sync := QueueAfter(q, syncs[..k - 1]), syncs[k - 1];
      assert syncs[..k][..k - 1] == syncs[..k - 1];
      AdvanceAt(before, sync, i);
      hide QueueAfter, Stands, Advance, NoOptions;
      if i < |q| - 1 {
        QueueRotates(q, syncs, k - 1, i + 1);
        MovesUp(before[i + 1], q, syncs, k - 1, i);
      } else {
        QueueRotates(q, syncs, k - 1, 0);
        GoesToTheBack(before[0], q, syncs, k - 1);
      }
    }
  }

  /**
   Round robin, for any number of rounds and whatever is requested meanwhile: the turns go
   around the list, and a meter's turn is a time synchronization exactly when one was requested
   since its turn before.
   */
  lemma TurnsGoAround(q: seq<DevInfo>, syncs: seq<bool>, k: nat)
    requires q != [] && NoOptions(q) && k < |syncs|
    ensures Same(TurnOf(q, syncs, k), q[Place(k, |q|)])
    ensures TimeSync(TurnOf(q, syncs, k))
       <==> TurnOf(q, syncs, k).ty == METER && RequestIn(syncs, k - |q| + 1, k + 1)
  {
    QueueRotates(q, syncs, k, 0);
    hide QueueAfter, RequestIn, Place;
    assert k + 0 == k;
    RequestExtended(syncs, k - |q| + 1, k);
  }

  /** Among any `n` consecutive rounds exactly one is the turn of place `j`. */
  lemma {:induction false} OnePlaceInWindow(n: nat, from: nat, j: nat) returns (k: nat)
    requires j < n
    ensures from <= k < from + n && Place(k, n) == j
    ensures forall k' | from <= k' < from + n && Place(k', n) == j :: k' == k
  {
    if from == 0 {
      k := j;
    } else {
      k := OnePlaceInWindow(n, from - 1, j);
      assert Place(from - 1 + n, n) == Place(from - 1, n);
      if k == from - 1 {
        k := from - 1 + n;
      }
    }
  }

  /** In any `|q|` consecutive rounds every device has exactly one turn. */
  lemma OneTurnPerCycle(q: seq<DevInfo>, syncs: seq<bool>, from: nat, j: nat) returns (k: nat)
    requires j < |q| && NoOptions(q) && Distinct(q) && from + |q| <= |syncs|
    ensures from <= k < from + |q| && Same(TurnOf(q, syncs, k), q[j])
    ensures forall k' | from <= k' < from + |q| && Same(TurnOf(q, syncs, k'), q[j]) :: k' == k
  {
    k := OnePlaceInWindow(|q|, from, j);
    TurnsGoAround(q, syncs, k);
    forall k' | from <= k' < from + |q| && Same(TurnOf(q, syncs, k'), q[j]) ensures k' == k {
      TurnsGoAround(q, syncs, k');
      assert Same(q[Place(k', |q|)], q[j]);
    }
  }

  /** A single request: which turns of the whole run are time synchronizations. */
  lemma SyncTurnsExactly(q: seq<DevInfo>, syncs: seq<bool>, s: nat, k: nat)
    requires q != [] && NoOptions(q) && s < |syncs| && k < |syncs| && syncs[s]
    requires forall i | 0 <= i < |syncs| && i != s :: !syncs[i]
    ensures TimeSync(TurnOf(q, syncs, k)) <==> TurnOf(q, syncs, k).ty == METER && s <= k < s + |q|
  {
    TurnsGoAround(q, syncs, k);
  }

  /**
   After a single request each meter sends exactly one time synchronization, within the next
   cycle, and in all its other turns, before and after, it is queried.
   */
  lemma OneSyncPerRequest(q: seq<DevInfo>, syncs: seq<bool>, s: nat, j: nat) returns (k: nat)
    requires j < |q| && NoOptions(q) && Distinct(q) && q[j].ty == METER
    requires s + |q| <= |syncs| && syncs[s] && forall i | 0 <= i < |syncs| && i != s :: !syncs[i]
    ensures s <= k < s + |q| && Same(TurnOf(q, syncs, k), q[j]) && TimeSync(TurnOf(q, syncs, k))
    ensures forall k' | 0 <= k' < |syncs| && k' != k && Same(TurnOf(q, syncs, k'), q[j]) :: !TimeSync(TurnOf(q, syncs, k'))
  {
    hide TurnOf, NoOptions, Distinct, TimeSync;
    k := OneTurnPerCycle(q, syncs, s, j);
    SyncTurnsExactly(q, syncs, s, k);
    forall k' | 0 <= k' < |syncs| && k' != k && Same(TurnOf(q, syncs, k'), q[j])
      ensures !TimeSync(TurnOf(q, syncs, k'))
    {
      SyncTurnsExactly(q, syncs, s, k');
    }
  }

  /** No device is lost or doubled. */
  lemma {:induction false} DevicesConserved(q: seq<DevInfo>, syncs: seq<bool>)
    ensures Identities(QueueAfter(q, syncs)) == Identities(q)
  {
    if syncs != [] {
      var before := QueueAfter(q, syncs[..|syncs| - 1]);
      var sync := syncs[|syncs| - 1];
      DevicesConserved(q, syncs[..|syncs| - 1]);
      if q != [] {
        var r := Requested(before, sync);
        assert Pairs(r) == Pairs(before);
        assert Pairs(Advance(before, sync)) == Pairs(r)[1..] + [Pairs(r)[0]];
        assert Pairs(r) == [Pairs(r)[0]] + Pairs(r)[1..];
      }
    }
  }

  function Pairs(q: seq<DevInfo>): (p: seq<(byte, byte)>)
    ensures |p| == |q|
  {
    seq(|q|, i requires 0 <= i < |q| => (q[i].ty, q[i].addr))
  }

  function Identities(q: seq<DevInfo>): multiset<(byte, byte)> {
    multiset(Pairs(q))
  }

  // ----- the thread -----

  datatype Action = Query(ty: byte, addr: byte) | SendTime(addr: byte) | TellAlarm(addr: byte)

  /** Before an attempt: did a setting command come in; and is the query answered, if it is sent. */
  datatype Moment = Moment(setCmd: bool, answered: bool)

  /** What one round finds: the flags, the device counts, its attempts, the fire alarm. */
  datatype Surroundings = Surroundings(devChange: bool, record: seq<byte>, sync: bool,
                                       moments: seq<Moment>, alarm: bool, told: seq<bool>)

  predicate Complete(e: Surroundings) {
    |e.record| == 5 && |e.moments| == ATTEMPTS && |e.told| == 3
  }

  /** How many queries a turn sends: up to the first answer, and none once a setting command waits. */
  function Tried(moments: seq<Moment>, setCmd: bool): (n: nat)
    ensures n <= |moments|
    ensures setCmd ==> n == 0
  {
    if moments == [] || setCmd || moments[0].setCmd then 0
    else if moments[0].answered then 1
    else 1 + Tried(moments[1..], false)
  }

  /** The queries before the last were not answered; the turn ends early only for a reason. */
  lemma {:induction false} TriedUntil(moments: seq<Moment>)
    ensures var n := Tried(moments, false);
      && (forall i | 0 <= i < n :: !moments[i].setCmd)
      && (forall i | 0 <= i < n - 1 :: !moments[i].answered)
      && (n < |moments| ==> moments[n].setCmd || (n > 0 && moments[n - 1].answered))
  {
    if moments != [] && !moments[0].setCmd && !moments[0].answered {
      TriedUntil(moments[1..]);
    }
  }

  predicate Heard(moments: seq<Moment>, setCmd: bool) {
    var n := Tried(moments, setCmd);
    n > 0 && moments[n - 1].answered
  }

  function Repeated(a: Action, n: nat): seq<Action> {
    seq(n, _ => a)
  }

  predicate AlarmTold(known: map<byte, bool>, addr: byte) {
    addr in known && known[addr]
  }

  /** The alarm is told up to three times, while it is acknowledged. */
  function Tells(told: seq<bool>): (n: nat)
    requires |told| == 3
  {
    if !told[0] then 1 else if !told[1] then 2 else 3
  }

  predicate AlarmDiffers(d: DevInfo, known: map<byte, bool>, e: Surroundings, setCmd: bool) {
    d.ty == AIRCONDITION && Heard(e.moments, setCmd) && AlarmTold(known, d.addr) != e.alarm
  }

  /** What the turn of `d` asks of the bus. */
  function Actions(d: DevInfo, known: map<byte, bool>, e: Surroundings, setCmd: bool): seq<Action>
    requires Complete(e) && Polled(d.ty)
  {
    if TimeSync(d) then [SendTime(d.addr)]
    else
      var queries := Repeated(Query(d.ty, d.addr), Tried(e.moments, setCmd));
      if AlarmDiffers(d, known, e, setCmd) then queries + Repeated(TellAlarm(d.addr), Tells(e.told)) else queries
  }

  // ----- what a turn must have asked of the bus, told from the record -----

  function Times(log: seq<Action>, a: Action): nat {
    multiset(log)[a]
  }

  /** A marked meter gets the time, once, and nothing else happens. */
  ghost predicate TimeLogged(added: seq<Action>, d: DevInfo) {
    forall a: byte :: Times(added, SendTime(a)) == if d.ty == 3 && d.opt != 0 && a == d.addr then 1 else 0
  }

  /**
   Any other device is asked for its own state and no other device is: one to three times, or
   not at all when a setting command waits before the first attempt.
   */
  ghost predicate QueriesLogged(added: seq<Action>, d: DevInfo, e: Surroundings, waiting: bool)
    requires Complete(e)
  {
    var n := Times(added, Query(d.ty, d.addr));
    && (forall ty: byte, a: byte | ty != d.ty || a != d.addr :: Times(added, Query(ty, a)) == 0)
    && (d.ty == 3 && d.opt != 0 ==> n == 0)
    && (!(d.ty == 3 && d.opt != 0) ==> if waiting || e.moments[0].setCmd then n == 0 else 1 <= n <= 3)
  }

  /**
   An alarm is told only to an air conditioner that has just answered and was told otherwise
   last; then once, and again up to twice as long as it acknowledges.
   */
  ghost predicate AlarmLogged(added: seq<Action>, d: DevInfo, e: Surroundings, known: bool)
    requires Complete(e)
  {
    var n, t := Times(added, Query(d.ty, d.addr)), Times(added, TellAlarm(d.addr));
    && (forall a: byte | a != d.addr :: Times(added, TellAlarm(a)) == 0)
    && t <= 3
    && (t > 0 <==> d.ty == 2 && known != e.alarm && 0 < n <= 3 && e.moments[n - 1].answered)
    && (t > 1 ==> e.told[0]) && (t > 2 ==> e.told[1])
    && (t == 1 ==> !e.told[0]) && (t == 2 ==> !e.told[1])
  }

  /** All that a turn of device `d` adds to the log. */
  ghost predicate TurnLogged(added: seq<Action>, d: DevInfo, e: Surroundings, waiting: bool, known: bool)
    requires Complete(e)
  {
    TimeLogged(added, d) && QueriesLogged(added, d, e, waiting) && AlarmLogged(added, d, e, known)
  }

  lemma TimesAdded(x: seq<Action>, y: seq<Action>)
    ensures forall a :: Times(x + y, a) == Times(x, a) + Times(y, a)
  {
  }

  lemma {:induction false} TimesRepeated(a: Action, n: nat, b: Action)
    ensures Times(Repeated(a, n), b) == if b == a then n else 0
  {
    if n > 0 {
      TimesRepeated(a, n - 1, b);
      assert Repeated(a, n) == Repeated(a, n - 1) + [a];
      TimesAdded(Repeated(a, n - 1), [a]);
    } else {
      assert Repeated(a, n) == [];
    }
  }

  lemma ActionTimes(d: DevInfo, known: map<byte, bool>, e: Surroundings, setCmd: bool, b: Action)
    requires Complete(e) && Polled(d.ty)
    ensures Times(Actions(d, known, e, setCmd), b)
         == if d.ty == 3 && d.opt != 0 then (if b == SendTime(d.addr) then 1 else 0)
            else if b == Query(d.ty, d.addr) then Tried(e.moments, setCmd)
            else if b == TellAlarm(d.addr) && AlarmDiffers(d, known, e, setCmd) then Tells(e.told)
            else 0
  {
    hide Times, Repeated, Tried, Heard, AlarmTold, Tells;
    TimesRepeated(SendTime(d.addr), 1, b);
    TimesRepeated(Query(d.ty, d.addr), Tried(e.moments, setCmd), b);
    TimesRepeated(TellAlarm(d.addr), Tells(e.told), b);
    TimesAdded(Repeated(Query(d.ty, d.addr), Tried(e.moments, setCmd)), Repeated(TellAlarm(d.addr), Tells(e.told)));
    OneRepeated(SendTime(d.addr));
  }

  lemma OneRepeated(a: Action)
    ensures Repeated(a, 1) == [a]
  {
  }

  lemma ActionsLogged(d: DevInfo, known: map<byte, bool>, e: Surroundings, setCmd: bool)
    requires Complete(e) && Polled(d.ty)
    ensures var added := Actions(d, known, e, setCmd);
      TurnLogged(added, d, e, setCmd, AlarmTold(known, d.addr))
  {
    hide Times, Actions, Tried, AlarmTold;
    forall b ensures Times(Actions(d, known, e, setCmd), b)
      == if d.ty == 3 && d.opt != 0 then (if b == SendTime(d.addr) then 1 else 0)
         else if b == Query(d.ty, d.addr) then Tried(e.moments, setCmd)
         else if b == TellAlarm(d.addr) && AlarmDiffers(d, known, e, setCmd) then Tells(e.told)
         else 0
    {
      ActionTimes(d, known, e, setCmd, b);
    }
    TriedSome(e.moments, setCmd);
  }

  lemma TriedSome(moments: seq<Moment>, setCmd: bool)
    requires |moments| == 3
    ensures if setCmd || moments[0].setCmd then Tried(moments, setCmd) == 0 else 1 <= Tried(moments, setCmd) <= 3
  {
  }

  /** How many of the turns send the time to meter `a`. */
  function TimesDue(turns: seq<DevInfo>, a: byte): nat {
    if turns == [] then 0
    else
      var d := turns[|turns| - 1];
      TimesDue(turns[..|turns| - 1], a) + if d.ty == 3 && d.opt != 0 && d.addr == a then 1 else 0
  }

  lemma {:induction false} DueOnce(turns: seq<DevInfo>, a: byte, k: nat)
    requires k < |turns| && TimeSync(turns[k]) && turns[k].addr == a
    requires forall i | 0 <= i < |turns| && i != k :: !(TimeSync(turns[i]) && turns[i].addr == a)
    ensures TimesDue(turns, a) == 1
  {
    var front := turns[..|turns| - 1];
    if k < |front| {
      DueOnce(front, a, k);
    } else {
      NeverDue(front, a);
    }
  }

  lemma {:induction false} NeverDue(turns: seq<DevInfo>, a: byte)
    requires forall d | d in turns :: !(TimeSync(d) && d.addr == a)
    ensures TimesDue(turns, a) == 0
  {
    if turns != [] {
      NeverDue(turns[..|turns| - 1], a);
    }
  }

  /** The time was sent once for each turn that was due for it, to that meter. */
  ghost predicate TimesSent(before: seq<Action>, after: seq<Action>, turns: seq<DevInfo>) {
    forall a: byte :: Times(after, SendTime(a)) == Times(before, SendTime(a)) + TimesDue(turns, a)
  }

  lemma NothingSent(log: seq<Action>)
    ensures TimesSent(log, log, [])
  {
  }

  lemma MoreSent(first: seq<Action>, before: seq<Action>, after: seq<Action>, turns: seq<DevInfo>, more: seq<DevInfo>)
    requires TimesSent(first, before, turns) && before <= after
    requires |more| <= 1 && (if more == [] then after == before else TimeLogged(after[|before|..], more[0]))
    ensures TimesSent(first, after, turns + more)
  {
    hide Times;
    assert after == before + after[|before|..];
    TimesAdded(before, after[|before|..]);
    if more == [] {
      assert turns + more == turns;
    } else {
      assert (turns + more)[..|turns|] == turns;
    }
  }

  /** Round `s`, and no other, finds a request. */
  ghost predicate SingleRequest(syncs: seq<bool>, s: int) {
    0 <= s < |syncs| && syncs[s] && forall i | 0 <= i < |syncs| && i != s :: !syncs[i]
  }

  lemma SentTo(before: seq<Action>, after: seq<Action>, turns: seq<DevInfo>, a: byte)
    requires TimesSent(before, after, turns)
    ensures Times(after, SendTime(a)) == Times(before, SendTime(a)) + TimesDue(turns, a)
  {
  }

  /** After a single request, exactly one for each meter. */
  lemma OneTimeDue(q: seq<DevInfo>, syncs: seq<bool>, s: nat, j: nat)
    requires j < |q| && NoOptions(q) && Distinct(q) && q[j].ty == METER
    requires s + |q| <= |syncs| && SingleRequest(syncs, s)
    ensures TimesDue(TurnsOf(q, syncs), q[j].addr) == 1
  {
    hide TurnOf, TurnsOf, NoOptions, Distinct, TimesDue;
    var k := OneSyncPerRequest(q, syncs, s, j);
    TurnsAt(q, syncs);
    DueOnce(TurnsOf(q, syncs), q[j].addr, k);
  }

  /** The devices a round starts with, given those of the round before. */
  function Devices(q: seq<DevInfo>, e: Surroundings): seq<DevInfo>
    requires Complete(e)
  {
    if e.devChange then DeviceList(DeviceCounts(e.record)) else q
  }

  predicate AllPolled(q: seq<DevInfo>) {
    forall d | d in q :: Polled(d.ty)
  }

  lemma AllPolledRequested(q: seq<DevInfo>, sync: bool)
    requires AllPolled(q)
    ensures AllPolled(Requested(q, sync))
  {
    hide Polled;
    var r := Requested(q, sync);
    forall i | 0 <= i < |r| ensures Polled(r[i].ty) {
      assert q[i] in q;
    }
  }

  lemma AllPolledAdvanced(q: seq<DevInfo>, sync: bool)
    requires AllPolled(q) && q != []
    ensures AllPolled(Advance(q, sync)) && Polled(Requested(q, sync)[0].ty)
  {
    hide Polled, Requested;
    AllPolledRequested(q, sync);
    assert Requested(q, sync)[0] in Requested(q, sync);
  }

  lemma StayPolled(q: seq<DevInfo>, e: Surroundings)
    requires Complete(e) && AllPolled(q)
    ensures var q' := Devices(q, e);
      && AllPolled(Advance(q', e.sync))
      && (q' != [] ==> Polled(Requested(q', e.sync)[0].ty))
  {
    hide Requested, DeviceList, DeviceCounts;
    ConfiguredDevices(e.record);
    if Devices(q, e) != [] {
      AllPolledAdvanced(Devices(q, e), e.sync);
    }
  }

  function SyncsOf(script: seq<Surroundings>): (s: seq<bool>)
    ensures |s| == |script|
  {
    seq(|script|, i requires 0 <= i < |script| => script[i].sync)
  }

  class TimerQuery {
    // The variables of `Run`, the flag another thread sets, and what was done so far.
    var devInfos: seq<DevInfo>
    var alarmMap: map<byte, bool>
    var setCmd: bool
    var log: seq<Action>
    ghost var turns: seq<DevInfo>

    constructor ()
      ensures devInfos == [] && alarmMap == map[] && !setCmd && log == [] && turns == []
    {
      devInfos, alarmMap, setCmd, log, turns := [], map[], false, [], [];
    }

    method Rebuild(record: seq<byte>)
      requires |record| == 5
      modifies this`devInfos
      ensures devInfos == DeviceList(DeviceCounts(record))
    {
      var devs := DeviceCounts(record);
      devInfos := [];
      for i := 0 to |devs|
        invariant devInfos == DeviceList(devs[..i])
      {
        assert devs[..i + 1][..i] == devs[..i];
        if devs[i].ty == LIGHT || devs[i].ty == CURTAIN || devs[i].ty == AIRCONDITION || devs[i].ty == METER {
          AddDevices(devs[i]);
        }
      }
      assert devs[..|devs|] == devs;
    }

    method AddDevices(c: DevCount)
      modifies this`devInfos
      ensures devInfos == old(devInfos) + Addresses(c.ty, c.count)
    {
      var addr := 1;
      while addr <= c.count
        invariant 1 <= addr <= c.count as int + 1
        invariant devInfos == old(devInfos) + Addresses(c.ty, c.count)[..addr - 1]
      {
        devInfos := devInfos + [DevInfo(c.ty, Low(addr), 0)];
        addr := addr + 1;
      }
    }

    method MarkMeters()
      modifies this`devInfos
      ensures devInfos == Marked(old(devInfos))
    {
      ghost var before := devInfos;
      var i := 0;
      while i < |devInfos|
        invariant i <= |devInfos| == |before|
        invariant forall j | 0 <= j < i :: devInfos[j] == Marked(before)[j]
        invariant forall j | i <= j < |before| :: devInfos[j] == before[j]
      {
        if devInfos[i].ty == METER {
          devInfos := devInfos[i := devInfos[i].(opt := 1)];
        }
        i := i + 1;
      }
    }

    /** Up to three queries, broken off by an answer or a setting command. */
    method QueryTurn(d: DevInfo, moments: seq<Moment>) returns (heard: bool)
      requires |moments| == ATTEMPTS
      modifies this`setCmd, this`log
      ensures log == old(log) + Repeated(Query(d.ty, d.addr), Tried(moments, old(setCmd)))
      ensures heard == Heard(moments, old(setCmd))
      ensures setCmd ==> old(setCmd) || exists m :: m in moments && m.setCmd
    {
      heard := false;
      var i := 0;
      ghost var all := Tried(moments, setCmd);
      while i < ATTEMPTS
        invariant i <= ATTEMPTS && !heard
        invariant i > 0 ==> !setCmd
        invariant all == i + Tried(moments[i..], setCmd)
        invariant log == old(log) + Repeated(Query(d.ty, d.addr), i)
        invariant setCmd ==> old(setCmd)
        invariant forall j | 0 <= j < i :: !moments[j].answered
      {
        setCmd := setCmd || moments[i].setCmd;
        assert moments[i] in moments;
        if setCmd {
          return;
        }
        log := log + [Query(d.ty, d.addr)];
        assert moments[i..][1..] == moments[i + 1..];
        if moments[i].answered {
          heard := true;
          return;
        }
        i := i + 1;
      }
    }

    /** A changed alarm is passed on to an air conditioner that has just answered. */
    method PassAlarm(addr: byte, alarm: bool, told: seq<bool>)
      requires |told| == 3
      modifies this`alarmMap, this`log
      ensures AlarmTold(alarmMap, addr) == alarm
      ensures forall a | a != addr :: AlarmTold(alarmMap, a) == AlarmTold(old(alarmMap), a)
      ensures log == if AlarmTold(old(alarmMap), addr) == alarm then old(log)
                     else old(log) + Repeated(TellAlarm(addr), Tells(told))
    {
      if addr !in alarmMap {
        alarmMap := alarmMap[addr := false];
      }
      if alarmMap[addr] != alarm {
        alarmMap := alarmMap[addr := alarm];
        log := log + [TellAlarm(addr)];
        if told[0] {
          log := log + [TellAlarm(addr)];
          if told[1] {
            log := log + [TellAlarm(addr)];
          }
        }
      }
    }

    /** The turn of the front device, which then goes to the back. */
    method PollFront(e: Surroundings)
      requires Complete(e) && devInfos != [] && Polled(devInfos[0].ty)
      modifies this
      ensures var d := old(devInfos)[0];
        && devInfos == old(devInfos)[1..] + [AfterTurn(d)]
        && turns == old(turns) + [d]
        && log == old(log) + Actions(d, old(alarmMap), e, old(setCmd))
        && (forall a :: AlarmTold(alarmMap, a) ==
              if a == d.addr && AlarmDiffers(d, old(alarmMap), e, old(setCmd)) then e.alarm
              else AlarmTold(old(alarmMap), a))
      ensures var d, added := old(devInfos)[0], log[|old(log)|..];
        && old(log) <= log
        && TurnLogged(added, d, e, old(setCmd), AlarmTold(old(alarmMap), d.addr))
      ensures !setCmd
    {
      ActionsLogged(devInfos[0], alarmMap, e, setCmd);
      hide Tried, Heard, Tells, TurnLogged;
      var info := devInfos[0];
      turns := turns + [info];
      if info.ty == METER && info.opt != 0 {
        info := info.(opt := 0);
        log := log + [SendTime(info.addr)];
      } else {
        var heard := QueryTurn(info, e.moments);
        if info.ty == AIRCONDITION && heard {
          PassAlarm(info.addr, e.alarm, e.told);
        }
      }
      if setCmd {
        setCmd := false;
      }
      devInfos := devInfos[1..];
      devInfos := devInfos + [info];
    }

    /** One pass of the loop of `Run`. */
    method Round(e: Surroundings)
      requires Complete(e) && AllPolled(devInfos)
      modifies this
      ensures AllPolled(devInfos)
      ensures var q := Devices(old(devInfos), e);
        && devInfos == Advance(q, e.sync)
        && (if q == [] then log == old(log) && turns == old(turns)
            else
              var d := Requested(q, e.sync)[0];
              Polled(d.ty) && turns == old(turns) + [d] && log == old(log) + Actions(d, old(alarmMap), e, old(setCmd)))
      ensures var q, added := Devices(old(devInfos), e), log[|old(log)|..];
        && old(log) <= log
        && (if q == [] then added == []
            else
              var d := Requested(q, e.sync)[0];
              TurnLogged(added, d, e, old(setCmd), AlarmTold(old(alarmMap), d.addr)))
    {
      ghost var q := Devices(devInfos, e);
      StayPolled(devInfos, e);
      if e.devChange {
        Rebuild(e.record);
      }
      if e.sync {
        MarkMeters();
      }
      hide DeviceList, DeviceCounts, Actions, AlarmDiffers, AlarmTold, TurnLogged;
      hide AllPolled, Polled, Marked;
      assert devInfos == Requested(q, e.sync) && (devInfos == [] <==> q == []);
      hide Requested, AfterTurn;
      if |devInfos| > 0 {
        PollFront(e);
      }
    }

    /** The loop of `Run`, from one change of the devices up to the next. */
    method Run(script: seq<Surroundings>)
      requires script != [] && Complete(script[0]) && AllPolled(devInfos)
      requires forall i | 0 < i < |script| :: Complete(script[i]) && !script[i].devChange
      modifies this
      ensures var q := Devices(old(devInfos), script[0]);
        && devInfos == QueueAfter(q, SyncsOf(script))
        && turns == old(turns) + TurnsOf(q, SyncsOf(script))
        && TimesSent(old(log), log, TurnsOf(q, SyncsOf(script)))
      ensures forall s, j | SingleRequest(SyncsOf(script), s) && s + |devInfos| <= |script| && 0 <= j < |devInfos| ::
        var q := Devices(old(devInfos), script[0]);
        NoOptions(q) && Distinct(q) && q[j].ty == 3 ==>
          Times(log, SendTime(q[j].addr)) == Times(old(log), SendTime(q[j].addr)) + 1
    {
      hide DeviceList, DeviceCounts, Actions, Advance, Requested, AllPolled, Polled, TimeLogged, QueriesLogged, AlarmLogged, TimesSent;
      NothingSent(log);
      ghost var q := Devices(devInfos, script[0]);
      ghost var syncs := SyncsOf(script);
      for i := 0 to |script|
        invariant AllPolled(devInfos)
        invariant i == 0 ==> devInfos == old(devInfos)
        invariant i > 0 ==> devInfos == QueueAfter(q, syncs[..i])
        invariant turns == old(turns) + TurnsOf(q, syncs[..i])
        invariant TimesSent(old(log), log, TurnsOf(q, syncs[..i]))
      {
        assert syncs[..i + 1][..i] == syncs[..i];
        ghost var before, had := log, turns;
        Round(script[i]);
        MoreSent(old(log), before, log, TurnsOf(q, syncs[..i]), turns[|had|..]);
      }
      assert syncs[..|script|] == syncs;
      forall s, j | SingleRequest(syncs, s) && s + |q| <= |script| && 0 <= j < |q| && NoOptions(q) && Distinct(q) && q[j].ty == 3
        ensures Times(log, SendTime(q[j].addr)) == Times(old(log), SendTime(q[j].addr)) + 1
      {
        OneTimeDue(q, syncs, s, j);
        SentTo(old(log), log, TurnsOf(q, syncs), q[j].addr);
      }
    }
  }
}
