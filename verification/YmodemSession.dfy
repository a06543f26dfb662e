/**
 Whole transfers: what a completed one has sent, and what a standard receiver (Forsberg,
 "XMODEM/YMODEM Protocol Reference", chapters 5, 7 and 8) has stored at every moment.
 */
module YmodemSession {
  import opened Bytes
  import opened YmodemFormat
  import opened YmodemSender
  import CrcTheory
  import CrcCcitt

  // ----- acknowledged transmissions -----

  /** The transmissions that were answered with ACK, in order. */
  function Acknowledged(turns: seq<Turn>): seq<seq<byte>> {
    if turns == [] then []
    else (if turns[0].ch == ACK && turns[0].out != [] then [turns[0].out] else []) + Acknowledged(turns[1..])
  }

  /** All data packets from number `k` (counted from zero) on, then EOT and the closing block. */
  function Remaining(f: File, k: nat): seq<seq<byte>>
    requires f.Valid() && k <= f.Blocks()
    decreases f.Blocks() - k
  {
    if k < f.Blocks() then [f.DataPacket(k)] + Remaining(f, k + 1) else [[EOT], CLOSING_PACKET]
  }

  function Headers(f: File, n: nat): (s: seq<seq<byte>>)
    requires f.Valid()
    ensures |s| == n
  {
    seq(n, _ => f.HeaderPacket())
  }

  /** What is still to be acknowledged from the state `q` on, after `h` more header packets. */
  function ToAcknowledge(f: File, q: Sender, h: nat): seq<seq<byte>>
    requires f.Valid() && q.Fits(f)
  {
    match q
    case Hello(_) => Headers(f, h + 1) + Remaining(f, 0)
    case Header(_) => Headers(f, h + 1) + Remaining(f, 0)
    case HeaderAcked(_) => Headers(f, h) + Remaining(f, 0)
    case Sending(k) => Remaining(f, k)
    case End => [[EOT], CLOSING_PACKET]
    case EndAcked => [CLOSING_PACKET]
    case Closing => [CLOSING_PACKET]
    case _ => []
  }

  lemma RemainingStep(f: File, k: nat)
    requires f.Valid() && k <= f.Blocks()
    ensures k < f.Blocks() ==> Remaining(f, k) == [f.DataPacket(k)] + Remaining(f, k + 1)
    ensures k == f.Blocks() ==> Remaining(f, k) == [[EOT], CLOSING_PACKET]
  {
  }

  lemma MoreHeaders(f: File, h: nat, rest: seq<seq<byte>>)
    requires f.Valid()
    ensures Headers(f, h + 1) + rest == [f.HeaderPacket()] + (Headers(f, h) + rest)
    ensures Headers(f, 0) + rest == rest
  {
  }

  lemma HeaderAcknowledges(f: File, q: Sender, ch: int, h: nat) returns (h': nat)
    requires f.Valid() && (q.Hello? || q.Header? || q.HeaderAcked?)
    requires !React(f, q, ch).Failed? && !React(f, q, ch).Aborted?
    ensures ToAcknowledge(f, q, h')
         == (if ch == ACK && q.Header? then [f.HeaderPacket()] else []) + ToAcknowledge(f, React(f, q, ch), h)
  {
    hide File.Valid, File.HeaderPacket, File.Blocks, Remaining, Headers;
    h' := h;
    NothingFirst(ToAcknowledge(f, React(f, q, ch), h));
    if q.HeaderAcked? {
      if ch == CRC {
        h' := 0;
        MoreHeaders(f, 0, Remaining(f, 0));
        RemainingStep(f, 0);
      } else {
        h' := h + 1;
      }
    } else if ch == ACK {
      MoreHeaders(f, h, Remaining(f, 0));
    }
  }

  lemma DataAcknowledges(f: File, k: nat, ch: int, h: nat)
    requires f.Valid() && k < f.Blocks() && !React(f, Sending(k), ch).Failed?
    ensures ToAcknowledge(f, Sending(k), h)
         == (if ch == ACK then [f.DataPacket(k)] else []) + ToAcknowledge(f, React(f, Sending(k), ch), h)
  {
    hide File.Valid, File.DataPacket, File.Blocks, Remaining;
    if ch == ACK {
      RemainingStep(f, k);
      RemainingStep(f, k + 1);
    } else {
      NothingFirst(Remaining(f, k));
    }
  }

  lemma EndAcknowledges(f: File, q: Sender, ch: int, h: nat)
    requires f.Valid() && (q.End? || q.EndAcked? || q.Closing?) && !React(f, q, ch).Failed?
    ensures ToAcknowledge(f, q, h)
         == (if ch == ACK && !q.EndAcked? then [Emits(f, q)] else []) + ToAcknowledge(f, React(f, q, ch), h)
  {
    hide PacketBytes;
    NothingFirst(ToAcknowledge(f, q, h));
    assert [[EOT], CLOSING_PACKET] == [[EOT]] + [CLOSING_PACKET];
    assert [CLOSING_PACKET] + [] == [CLOSING_PACKET];
  }

  /** One turn acknowledges the front of what is left, or nothing. */
  lemma TurnAcknowledges(f: File, q: Sender, ch: int, h: nat) returns (h': nat)
    requires f.Valid() && q.Fits(f) && !q.Over() && !React(f, q, ch).Failed? && !React(f, q, ch).Aborted?
    ensures ToAcknowledge(f, q, h')
         == (if ch == ACK && Emits(f, q) != [] then [Emits(f, q)] else []) + ToAcknowledge(f, React(f, q, ch), h)
  {
    hide ToAcknowledge, React, PacketBytes, HeaderBlock, File.Blocks, File.DataPacket, File.HeaderPacket;
    h' := h;
    HeaderPacketIsLong(f);
    match q {
      case Sending(k) =>
        DataPacketIsLong(f, k);
        DataAcknowledges(f, k, ch, h);
      case End => EndAcknowledges(f, q, ch, h);
      case EndAcked => EndAcknowledges(f, q, ch, h);
      case Closing => EndAcknowledges(f, q, ch, h);
      case _ => h' := HeaderAcknowledges(f, q, ch, h);
    }
  }

  lemma DataPacketIsLong(f: File, k: nat)
    requires f.Valid() && k < f.Blocks()
    ensures f.DataPacket(k) != []
  {
  }

  lemma HeaderPacketIsLong(f: File)
    requires f.Valid()
    ensures f.HeaderPacket() != [] && CLOSING_PACKET != []
  {
  }

  lemma NothingFirst(s: seq<seq<byte>>)
    ensures [] + s == s
  {
  }

  lemma {:induction false} DriveAcknowledges(f: File, q: Sender, input: seq<int>) returns (h: nat)
    requires f.Valid() && q.Fits(f) && Drive(f, q, input).last.Sent?
    ensures Acknowledged(Drive(f, q, input).turns) == ToAcknowledge(f, q, h)
    decreases |input|, Rank(q)
  {
    hide Emits, ToAcknowledge, React;
    if q.Over() {
      OverAcknowledges(f, q);
      h := 0;
    } else {
      TurnProgress(f, q, input);
      var q' := React(f, q, Next(input));
      var h' := DriveAcknowledges(f, q', Rest(input));
      if q'.Over() {
        FailureIsFinal(f, q', Rest(input));
      }
      h := TurnAcknowledges(f, q, Next(input), h');
      var t := Turn(Emits(f, q), Next(input));
      assert ([t] + Drive(f, q', Rest(input)).turns)[1..] == Drive(f, q', Rest(input)).turns;
    }
  }

  lemma TurnProgress(f: File, q: Sender, input: seq<int>)
    requires q.Fits(f) && !q.Over()
    ensures input == [] ==> Rank(React(f, q, Next(input))) < Rank(q)
    ensures input != [] ==> |Rest(input)| < |input|
  {
  }

  lemma OverAcknowledges(f: File, q: Sender)
    requires f.Valid() && q.Sent?
    ensures ToAcknowledge(f, q, 0) == []
  {
  }

  lemma FailureIsFinal(f: File, q: Sender, input: seq<int>)
    requires f.Valid() && q.Fits(f) && q.Over()
    ensures Drive(f, q, input).last == q
  {
  }

  /**
   If the sender reports success, the acknowledged transmissions are block 0 at least once,
   then the data packets in order, then EOT, then the closing block: for every answer sequence.
   */
  lemma SuccessSentEverything(f: File, input: seq<int>) returns (h: nat)
    requires f.Valid() && Drive(f, Hello(1), input).last.Sent?
    ensures Acknowledged(Drive(f, Hello(1), input).turns) == Headers(f, h + 1) + Remaining(f, 0)
  {
    h := DriveAcknowledges(f, Hello(1), input);
  }

  /** What is not acknowledged is sent again unchanged, if anything is sent again. */
  lemma {:induction false} ResentUnchanged(f: File, q: Sender, input: seq<int>, i: nat)
    requires f.Valid() && q.Fits(f)
    requires i + 1 < |Drive(f, q, input).turns|
    requires Drive(f, q, input).turns[i].out != [] && Drive(f, q, input).turns[i].ch != ACK
    ensures Drive(f, q, input).turns[i + 1].out == Drive(f, q, input).turns[i].out
    decreases i
  {
    hide PacketBytes, HeaderBlock;
    var q' := React(f, q, Next(input));
    var later := Drive(f, q', Rest(input));
    if i > 0 {
      ResentUnchanged(f, q', Rest(input), i - 1);
    } else {
      assert later.turns[0].out == Emits(f, q');
    }
  }

  // ----- the other end -----

  datatype Stage = Waiting | Receiving | Ended | Closed

  /** A standard receiver: the stage it is in, what block 0 announced, and what it has stored. */
  datatype Receiver = Receiver(stage: Stage, name: seq<byte>, size: nat, expected: byte, content: seq<byte>)

  const FRESH_RECEIVER := Receiver(Waiting, [], 0, 0, [])

  predicate IsNull(got: seq<byte>) {
    Intact(got) && got[1] == 0 && DecodeHeader(Payload(got)) == None
  }

  /**
   One reaction of the receiver: packets are taken when intact and numbered as expected, the one
   before is acknowledged again, anything unreadable is refused, silence is answered by asking.
   */
  function Receive(r: Receiver, got: seq<byte>): (Receiver, int) {
    match r.stage
    case Waiting =>
      if got == [] then (r, CRC)
      else if Intact(got) && got[1] == 0 && DecodeHeader(Payload(got)).Some? then
        var (name, size) := DecodeHeader(Payload(got)).value;
        (Receiver(Receiving, name, size, 1, []), ACK)
      else (r, NAK)
    case Receiving =>
      if got == [] then (r, if r.content == [] then CRC else NAK)
      else if got == [EOT] then (r.(stage := Ended), ACK)
      else if !Intact(got) then (r, NAK)
      else if got[1] == r.expected then
        (r.(expected := Low(r.expected as int + 1), content := r.content + Payload(got)), ACK)
      else if Low(got[1] as int + 1) == r.expected then (r, ACK)
      else (r, CAN as int)
    case Ended =>
      if got == [] then (r, CRC)
      else if got == [EOT] then (r, ACK)
      else if IsNull(got) then (r.(stage := Closed), ACK)
      else (r, NAK)
    case Closed =>
      if IsNull(got) then (r, ACK) else (r, NAK)
  }

  /** The line may lose a transmission, or damage it as `PacketDamage` says. */
  ghost predicate Delivered(sent: seq<byte>, got: seq<byte>) {
    || got == sent
    || got == []
    || (sent == [EOT] && |got| == 1)
    || (|sent| == PACKET_SIZE + 5 && PacketDamage(sent, got))
  }

  /** On the way back a character may be lost or turn into any other, but not into an ACK. */
  predicate Heard(reply: int, ch: int) {
    ch == reply || ch != ACK
  }

  /** A conversation of the sender with this receiver over such a line; `gots` is what arrives. */
  ghost predicate Session(f: File, q: Sender, r: Receiver, input: seq<int>, gots: seq<seq<byte>>)
    requires f.Valid() && q.Fits(f)
    decreases |gots|
  {
    if q.Over() then gots == []
    else
      && gots != []
      && Delivered(Emits(f, q), gots[0])
      && Heard(Receive(r, gots[0]).1, Next(input))
      && Session(f, React(f, q, Next(input)), Receive(r, gots[0]).0, Rest(input), gots[1..])
  }

  function ReceiverAfter(r: Receiver, gots: seq<seq<byte>>): Receiver
    decreases |gots|
  {
    if gots == [] then r else ReceiverAfter(Receive(r, gots[0]).0, gots[1..])
  }

  // ----- sender and receiver in step -----

  /** `k` whole packets of the announced file are stored. */
  ghost predicate Holds(f: File, r: Receiver, k: nat)
    requires f.Valid()
  {
    && k <= f.Blocks()
    && r.name == Cut(f.name) && r.size == f.size
    && r.expected == Low(k + 1)
    && r.content == f.data[..PACKET_SIZE * k]
  }

  /** What the two ends know of each other in every state of the sender. */
  ghost predicate InStep(f: File, q: Sender, r: Receiver)
    requires f.Valid() && q.Fits(f)
  {
    match q
    case Hello(_) => r == FRESH_RECEIVER
    case Header(_) => r == FRESH_RECEIVER || (r.stage.Receiving? && Holds(f, r, 0))
    case HeaderAcked(_) => r.stage.Receiving? && Holds(f, r, 0)
    case Sending(acked) => r.stage.Receiving? && (Holds(f, r, acked) || Holds(f, r, acked + 1))
    case End => (r.stage.Receiving? || r.stage.Ended?) && Holds(f, r, f.Blocks())
    case EndAcked => r.stage.Ended? && Holds(f, r, f.Blocks())
    case Closing => (r.stage.Ended? || r.stage.Closed?) && Holds(f, r, f.Blocks())
    case Sent => r.stage.Closed? && Holds(f, r, f.Blocks())
    case _ => r == FRESH_RECEIVER || exists k: nat :: Holds(f, r, k)
  }

  /** A packet arrives intact exactly when it arrives unchanged. */
  lemma PacketArrival(block: seq<byte>, number: nat, got: seq<byte>)
    requires |block| == PACKET_SIZE
    requires Delivered(PacketBytes(block, number), got)
    ensures got != [EOT]
    ensures Intact(got) <==> got == PacketBytes(block, number)
    ensures Intact(got) ==> got[1] == Low(number) && Payload(got) == block
  {
    hide CrcTheory.Iterate;
    PacketIntact(block, number);
    if PacketDamage(PacketBytes(block, number), got) {
      DamageRejected(block, number, got);
    }
  }

  lemma HeaderTurn(f: File, q: Sender, r: Receiver, got: seq<byte>, ch: int)
    requires f.Valid() && f.name != [] && q.Header? && InStep(f, q, r)
    requires Delivered(Emits(f, q), got) && Heard(Receive(r, got).1, ch)
    ensures InStep(f, React(f, q, ch), Receive(r, got).0)
  {
    hide PacketBytes, HeaderBlock, Intact, PacketDamage, DecodeHeader;
    PacketArrival(HeaderBlock(f.name, f.size), 0, got);
    HeaderReadsBack(f.name, f.size);
    assert f.data[..0] == [];
    var r' := Receive(r, got).0;
    assert r' == r || (r'.stage.Receiving? && Holds(f, r', 0));
  }

  /** The heart of it: whatever happens to a data packet, no packet is stored twice or left out. */
  lemma SendingTurn(f: File, q: Sender, r: Receiver, got: seq<byte>, ch: int)
    requires f.Valid() && q.Sending? && q.Fits(f) && InStep(f, q, r)
    requires Delivered(Emits(f, q), got) && Heard(Receive(r, got).1, ch)
    ensures InStep(f, React(f, q, ch), Receive(r, got).0)
  {
    hide PacketBytes, Intact, PacketDamage, DecodeHeader, File.Block, Holds, Receive;
    PacketArrival(f.Block(q.acked), q.acked + 1, got);
    if Holds(f, r, q.acked) {
      PacketAwaited(f, q.acked, r, got);
    } else {
      PacketKnown(f, q.acked, r, got);
    }
  }

  /** The receiver waits for packet `k`: it takes it, or nothing changes and it does not say ACK. */
  lemma PacketAwaited(f: File, k: nat, r: Receiver, got: seq<byte>)
    requires f.Valid() && k < f.Blocks() && r.stage.Receiving? && Holds(f, r, k)
    requires got != [EOT] && (Intact(got) ==> got[1] == Low(k + 1) && Payload(got) == f.Block(k))
    ensures var (r', reply) := Receive(r, got);
      (r' == r && reply != ACK) || (r'.stage.Receiving? && Holds(f, r', k + 1) && reply == ACK)
  {
    hide Intact, DecodeHeader;
    assert f.data[..PACKET_SIZE * k] + f.Block(k) == f.data[..PACKET_SIZE * (k + 1)];
    assert Low(Low(k + 1) + 1) == Low(k + 2);
  }

  /** The receiver has packet `k` already: it is not stored again. */
  lemma PacketKnown(f: File, k: nat, r: Receiver, got: seq<byte>)
    requires f.Valid() && k < f.Blocks() && r.stage.Receiving? && Holds(f, r, k + 1)
    requires got != [EOT] && (Intact(got) ==> got[1] == Low(k + 1))
    ensures Receive(r, got).0 == r
  {
    hide Intact, DecodeHeader;
    assert Low(k + 1) != Low(k + 2);
  }

  lemma ClosingTurn(f: File, q: Sender, r: Receiver, got: seq<byte>, ch: int)
    requires f.Valid() && q.Closing? && InStep(f, q, r)
    requires Delivered(Emits(f, q), got) && Heard(Receive(r, got).1, ch)
    ensures InStep(f, React(f, q, ch), Receive(r, got).0)
  {
    hide PacketBytes, Intact, PacketDamage, DecodeHeader;
    PacketArrival(Zeros(PACKET_SIZE), 0, got);
    NullBlockIsNoFile();
    assert Holds(f, Receive(r, got).0, f.Blocks());
  }

  lemma OtherTurn(f: File, q: Sender, r: Receiver, got: seq<byte>, ch: int)
    requires f.Valid() && q.Fits(f) && InStep(f, q, r)
    requires q.Hello? || q.HeaderAcked? || q.End? || q.EndAcked?
    requires Delivered(Emits(f, q), got) && Heard(Receive(r, got).1, ch)
    ensures InStep(f, React(f, q, ch), Receive(r, got).0)
  {
    hide PacketBytes, HeaderBlock, PacketDamage, DecodeHeader;
    var r' := Receive(r, got).0;
    if q.Hello? || q.HeaderAcked? {
      assert got == [] && r' == r;
    } else {
      assert Holds(f, r', f.Blocks());
    }
  }

  lemma TurnKeepsStep(f: File, q: Sender, r: Receiver, got: seq<byte>, ch: int)
    requires f.Valid() && f.name != [] && q.Fits(f) && InStep(f, q, r) && !q.Over()
    requires Delivered(Emits(f, q), got) && Heard(Receive(r, got).1, ch)
    ensures InStep(f, React(f, q, ch), Receive(r, got).0)
  {
    hide InStep, Delivered, Receive, React, Emits;
    match q
    case Header(_) => HeaderTurn(f, q, r, got, ch);
    case Sending(_) => SendingTurn(f, q, r, got, ch);
    case Closing => ClosingTurn(f, q, r, got, ch);
    case _ => OtherTurn(f, q, r, got, ch);
  }

  /** Sender and receiver stay in step through every session, at every moment of it. */
  lemma {:induction false} AlwaysInStep(f: File, q: Sender, r: Receiver, input: seq<int>, gots: seq<seq<byte>>, n: nat)
    requires f.Valid() && f.name != [] && q.Fits(f) && InStep(f, q, r)
    requires Session(f, q, r, input, gots) && n <= |gots|
    ensures InStep(f, SenderAfter(f, q, input, n), ReceiverAfter(r, gots[..n]))
    decreases n
  {
    hide InStep, Delivered, Receive, React, Emits;
    if n == 0 {
      assert gots[..0] == [];
    } else {
      TurnKeepsStep(f, q, r, gots[0], Next(input));
      AlwaysInStep(f, React(f, q, Next(input)), Receive(r, gots[0]).0, Rest(input), gots[1..], n - 1);
      assert gots[..n][1..] == gots[1..][..n - 1];
    }
  }

  lemma {:induction false} SessionEnds(f: File, q: Sender, r: Receiver, input: seq<int>, gots: seq<seq<byte>>)
    requires f.Valid() && q.Fits(f) && Session(f, q, r, input, gots)
    ensures SenderAfter(f, q, input, |gots|) == Drive(f, q, input).last
    ensures |gots| == |Drive(f, q, input).turns|
    decreases |gots|
  {
    hide Delivered, Receive, React, Emits;
    if gots != [] {
      SessionEnds(f, React(f, q, Next(input)), Receive(r, gots[0]).0, Rest(input), gots[1..]);
    }
  }

  /**
   Safety, at every moment of every session: the receiver has stored nothing yet, or a whole
   number of packets from the front of the file; while data packets are being sent that is as
   many as the sender has counted, or one more.
   */
  lemma StoredIsPrefix(f: File, input: seq<int>, gots: seq<seq<byte>>, n: nat) returns (k: nat)
    requires f.Valid() && f.name != []
    requires Session(f, Hello(1), FRESH_RECEIVER, input, gots) && n <= |gots|
    ensures k <= f.Blocks() && ReceiverAfter(FRESH_RECEIVER, gots[..n]).content == f.data[..PACKET_SIZE * k]
    ensures var q := SenderAfter(f, Hello(1), input, n); q.Sending? ==> k == q.acked || k == q.acked + 1
  {
    hide InStep, Session;
    FreshInStep(f);
    AlwaysInStep(f, Hello(1), FRESH_RECEIVER, input, gots, n);
    k := PacketsStored(f, SenderAfter(f, Hello(1), input, n), ReceiverAfter(FRESH_RECEIVER, gots[..n]));
  }

  lemma FreshInStep(f: File)
    requires f.Valid()
    ensures InStep(f, Hello(1), FRESH_RECEIVER)
  {
  }

  lemma PacketsStored(f: File, q: Sender, r: Receiver) returns (k: nat)
    requires f.Valid() && q.Fits(f) && InStep(f, q, r)
    ensures k <= f.Blocks() && r.content == f.data[..PACKET_SIZE * k]
    ensures q.Sending? ==> k == q.acked || k == q.acked + 1
  {
    if r == FRESH_RECEIVER {
      k := 0;
    } else {
      match q
      case Header(_) => k := 0;
      case HeaderAcked(_) => k := 0;
      case Sending(acked) => k := if Holds(f, r, acked) then acked else acked + 1;
      case Failed => k :| Holds(f, r, k);
      case Aborted => k :| Holds(f, r, k);
      case _ => k := f.Blocks();
    }
  }

  /** A success report means the receiver has the file: its name, its size, and all its bytes. */
  lemma SuccessMeansReceived(f: File, input: seq<int>, gots: seq<seq<byte>>)
    requires f.Valid() && f.name != []
    requires Session(f, Hello(1), FRESH_RECEIVER, input, gots)
    requires Drive(f, Hello(1), input).last.Sent?
    ensures var r := ReceiverAfter(FRESH_RECEIVER, gots);
      && r.stage.Closed? && r.name == Cut(f.name) && r.size == f.size
      && r.size <= |r.content| && r.content[..r.size] == f.data[..f.size]
  {
    AlwaysInStep(f, Hello(1), FRESH_RECEIVER, input, gots, |gots|);
    SessionEnds(f, Hello(1), FRESH_RECEIVER, input, gots);
    assert gots[..|gots|] == gots;
    assert f.data[..PACKET_SIZE * f.Blocks()][..f.size] == f.data[..f.size];
  }

  // ----- a line that delivers everything -----

  /** A whole conversation in which nothing is lost or changed, in either direction. */
  ghost predicate Lossless(f: File, q: Sender, r: Receiver, input: seq<int>, gots: seq<seq<byte>>)
    requires f.Valid() && q.Fits(f)
    decreases |gots|
  {
    if q.Over() then gots == []
    else
      && gots != [] && input != []
      && gots[0] == Emits(f, q)
      && input[0] == Receive(r, gots[0]).1
      && Lossless(f, React(f, q, input[0]), Receive(r, gots[0]).0, input[1..], gots[1..])
  }

  /** Where sender and receiver stand to each other in such a conversation. */
  ghost predicate InTune(f: File, q: Sender, r: Receiver)
    requires f.Valid() && q.Fits(f)
  {
    match q
    case Hello(_) => r == FRESH_RECEIVER
    case Header(_) => r == FRESH_RECEIVER
    case HeaderAcked(_) => r.stage.Receiving? && Holds(f, r, 0)
    case Sending(acked) => r.stage.Receiving? && Holds(f, r, acked)
    case End => r.stage.Receiving?
    case EndAcked => r.stage.Ended?
    case Closing => r.stage.Ended?
    case Sent => true
    case _ => false
  }

  /** How many turns are left. */
  function TurnsLeft(f: File, q: Sender): nat
    requires q.Fits(f)
  {
    match q
    case Hello(_) => f.Blocks() + 6
    case Header(_) => f.Blocks() + 5
    case HeaderAcked(_) => f.Blocks() + 4
    case Sending(acked) => f.Blocks() - acked + 3
    case End => 3
    case EndAcked => 2
    case Closing => 1
    case _ => 0
  }

  lemma StaysInTune(f: File, q: Sender, r: Receiver)
    requires f.Valid() && f.name != [] && q.Fits(f) && InTune(f, q, r) && !q.Over()
    ensures var (r', reply) := Receive(r, Emits(f, q));
      && InTune(f, React(f, q, reply), r')
      && TurnsLeft(f, React(f, q, reply)) < TurnsLeft(f, q)
  {
    hide PacketBytes, HeaderBlock, Intact, DecodeHeader, File.Block, File.HeaderPacket, File.DataPacket, Receive, Holds;
    match q
    case Header(_) => HeaderInTune(f, q, r);
    case Sending(acked) => DataInTune(f, acked, r);
    case Closing => ClosingInTune(f, r);
    case _ => OthersInTune(f, q, r);
  }

  lemma OthersInTune(f: File, q: Sender, r: Receiver)
    requires f.Valid() && q.Fits(f) && InTune(f, q, r) && !q.Over()
    requires q.Hello? || q.HeaderAcked? || q.End? || q.EndAcked?
    ensures var (r', reply) := Receive(r, Emits(f, q));
      InTune(f, React(f, q, reply), r') && TurnsLeft(f, React(f, q, reply)) < TurnsLeft(f, q)
  {
    hide PacketBytes, HeaderBlock, Intact, DecodeHeader, File.Block;
    if q.HeaderAcked? {
      assert f.data[..0] == [];
    }
  }

  lemma HeaderInTune(f: File, q: Sender, r: Receiver)
    requires f.Valid() && f.name != [] && q.Header? && r == FRESH_RECEIVER
    ensures var (r', reply) := Receive(r, f.HeaderPacket());
      reply == ACK && r'.stage.Receiving? && Holds(f, r', 0)
  {
    hide PacketBytes, HeaderBlock, Intact, DecodeHeader;
    PacketIntact(HeaderBlock(f.name, f.size), 0);
    HeaderReadsBack(f.name, f.size);
    assert f.data[..0] == [];
  }

  lemma DataInTune(f: File, k: nat, r: Receiver)
    requires f.Valid() && k < f.Blocks() && r.stage.Receiving? && Holds(f, r, k)
    ensures var (r', reply) := Receive(r, f.DataPacket(k));
      reply == ACK && r'.stage.Receiving? && Holds(f, r', k + 1)
  {
    hide PacketBytes, Intact, DecodeHeader, File.Block;
    PacketIntact(f.Block(k), k + 1);
    assert f.DataPacket(k) != [EOT];
    PacketAwaited(f, k, r, f.DataPacket(k));
    assert Receive(r, f.DataPacket(k)).1 == ACK;
  }

  lemma ClosingInTune(f: File, r: Receiver)
    requires r.stage.Ended?
    ensures Receive(r, CLOSING_PACKET).1 == ACK
  {
    hide PacketBytes, Intact, DecodeHeader;
    PacketIntact(Zeros(PACKET_SIZE), 0);
    NullBlockIsNoFile();
    assert Zeros(PACKET_SIZE)[..] == Zeros(PACKET_SIZE);
  }

  lemma {:induction false} LosslessEndsInSent(f: File, q: Sender, r: Receiver, input: seq<int>, gots: seq<seq<byte>>)
    requires f.Valid() && f.name != [] && q.Fits(f) && InTune(f, q, r)
    requires Lossless(f, q, r, input, gots)
    ensures Drive(f, q, input).last.Sent? && Session(f, q, r, input, gots)
    decreases |gots|
  {
    hide InTune, Receive, React, Emits;
    if !q.Over() {
      StaysInTune(f, q, r);
      LosslessEndsInSent(f, React(f, q, input[0]), Receive(r, gots[0]).0, input[1..], gots[1..]);
    } else {
      OverInTune(f, q, r);
    }
  }

  lemma OverInTune(f: File, q: Sender, r: Receiver)
    requires f.Valid() && q.Fits(f) && InTune(f, q, r) && q.Over()
    ensures q.Sent?
  {
  }

  lemma {:induction false} LosslessContinues(f: File, q: Sender, r: Receiver) returns (input: seq<int>, gots: seq<seq<byte>>)
    requires f.Valid() && f.name != [] && q.Fits(f) && InTune(f, q, r)
    ensures Lossless(f, q, r, input, gots)
    decreases TurnsLeft(f, q)
  {
    hide InTune, Receive, React, Emits;
    if q.Over() {
      return [], [];
    }
    StaysInTune(f, q, r);
    var got := Emits(f, q);
    var reply := Receive(r, got).1;
    var later, rest := LosslessContinues(f, React(f, q, reply), Receive(r, got).0);
    input, gots := [reply] + later, [got] + rest;
    assert input[1..] == later && gots[1..] == rest;
  }

  /** Over a line that delivers everything, the transfer of every named file succeeds. */
  lemma LosslessSucceeds(f: File, input: seq<int>, gots: seq<seq<byte>>)
    requires f.Valid() && f.name != []
    requires Lossless(f, Hello(1), FRESH_RECEIVER, input, gots)
    ensures Drive(f, Hello(1), input).last.Sent? && Session(f, Hello(1), FRESH_RECEIVER, input, gots)
  {
    LosslessEndsInSent(f, Hello(1), FRESH_RECEIVER, input, gots);
  }

  /** And there is such a conversation for every named file. */
  lemma LosslessSessionExists(f: File) returns (input: seq<int>, gots: seq<seq<byte>>)
    requires f.Valid() && f.name != []
    ensures Lossless(f, Hello(1), FRESH_RECEIVER, input, gots)
  {
    input, gots := LosslessContinues(f, Hello(1), FRESH_RECEIVER);
  }
}
