/**
 The YMODEM sender: `ymodem_send` as an automaton that is told one character at a time, and the
 nested loops of the source proved to follow it.
 */
module YmodemSender {
  import opened Bytes
  import opened YmodemFormat
  import CrcCcitt
  import CrcTheory

  const ACK := 0x06
  const NAK := 0x15
  const CAN: byte := 0x18
  const CRC := 0x43
  const TIMEOUT := -1

  /** The file in memory; the sender reads whole packets, so the memory ends on a packet boundary. */
  datatype File = File(name: seq<byte>, data: seq<byte>, size: nat) {

    predicate Valid() {
      size < WORD_COUNT && CString(name) && |data| >= PACKET_SIZE * Blocks()
    }

    /** The number of data packets. */
    function Blocks(): nat {
      (size + PACKET_SIZE - 1) / PACKET_SIZE
    }

    /** Data packet `k`, counted from zero. */
    function Block(k: nat): (b: seq<byte>)
      requires Valid() && k < Blocks()
      ensures |b| == PACKET_SIZE
    {
      data[PACKET_SIZE * k..PACKET_SIZE * k + PACKET_SIZE]
    }

    function HeaderPacket(): seq<byte>
      requires Valid()
    {
      PacketBytes(HeaderBlock(name, size), 0)
    }

    /** Data packets are numbered from one. */
    function DataPacket(k: nat): seq<byte>
      requires Valid() && k < Blocks()
    {
      PacketBytes(Block(k), k + 1)
    }
  }

  const CLOSING_PACKET: seq<byte> := PacketBytes(Zeros(PACKET_SIZE), 0)

  /** Which character the sender is waiting for. */
  datatype Sender =
    | Hello(attempt: nat)     // the receiver's first 'C'
    | Header(mayC: bool)      // the answer to block 0; 'C' is excused once
    | HeaderAcked(mayC: bool) // the 'C' behind the ACK of block 0
    | Sending(acked: nat)     // the answer to the data packet after `acked` others
    | End                     // the answer to EOT
    | EndAcked                // the 'C' behind the ACK of EOT
    | Closing                 // the answer to the closing null block
    | Sent
    | Failed                  // return -1
    | Aborted                 // return -1 after two CAN bytes
  {
    predicate Over() {
      Sent? || Failed? || Aborted?
    }

    ghost predicate Fits(f: File) {
      Sending? ==> acked < f.Blocks()
    }
  }

  /** What has been put on the line since the last character was read. */
  function Emits(f: File, q: Sender): seq<byte>
    requires f.Valid() && q.Fits(f)
  {
    match q
    case Header(_) => f.HeaderPacket()
    case Sending(k) => f.DataPacket(k)
    case End => [EOT]
    case Closing => CLOSING_PACKET
    case Aborted => [CAN, CAN]
    case _ => []
  }

  function AfterPackets(f: File, acked: nat): Sender {
    if acked < f.Blocks() then Sending(acked) else End
  }

  /** The sender is given the character `ch`, or a negative number for a timeout. */
  function React(f: File, q: Sender, ch: int): (q': Sender)
    requires q.Fits(f)
    ensures q'.Fits(f)
  {
    match q
    case Hello(n) => if ch == CRC then Header(true) else if ch < 0 && n < 4 then Hello(n + 1) else Failed
    case Header(mayC) =>
      if ch == ACK then HeaderAcked(mayC)
      else if ch == CRC && mayC then Header(false)
      else if ch != NAK || mayC then Aborted
      else Header(mayC)
    case HeaderAcked(mayC) => if ch == CRC then AfterPackets(f, 0) else Header(mayC)
    case Sending(k) => if ch == ACK then AfterPackets(f, k + 1) else if ch == CAN as int || ch == -1 then Failed else q
    case End => if ch == ACK then EndAcked else if ch == -1 then Failed else End
    case EndAcked => if ch == CRC then Closing else Failed
    case Closing => if ch == ACK then Sent else if ch == -1 then Failed else Closing
    case _ => q
  }

  /** Bytes put on the line, and the character read after them. */
  datatype Turn = Turn(out: seq<byte>, ch: int)

  datatype Outcome = Outcome(turns: seq<Turn>, last: Sender)

  function Rank(q: Sender): nat {
    match q
    case Hello(n) => if n < 4 then 6 - n else 2
    case HeaderAcked(_) => 2
    case Sent => 0
    case Failed => 0
    case Aborted => 0
    case _ => 1
  }

  function Next(input: seq<int>): int {
    if input == [] then TIMEOUT else input[0]
  }

  function Rest(input: seq<int>): seq<int> {
    if input == [] then [] else input[1..]
  }

  /** The whole conversation from `q` on; when the input is used up, every wait times out. */
  function Drive(f: File, q: Sender, input: seq<int>): (r: Outcome)
    requires f.Valid() && q.Fits(f)
    ensures r.last.Over() && r.last.Fits(f)
    decreases |input|, Rank(q)
  {
    if q.Over() then Outcome([], q)
    else
      var r := Drive(f, React(f, q, Next(input)), Rest(input));
      Outcome([Turn(Emits(f, q), Next(input))] + r.turns, r.last)
  }

  // ----- a NAK to block 0 -----

  /** The state after `n` characters, timeouts included. */
  function SenderAfter(f: File, q: Sender, input: seq<int>, n: nat): (q': Sender)
    requires q.Fits(f)
    ensures q'.Fits(f)
    decreases n
  {
    if n == 0 then q else SenderAfter(f, React(f, q, Next(input)), Rest(input), n - 1)
  }

  /** The character read in turn `n`. */
  function Answer(input: seq<int>, n: nat): int {
    if n < |input| then input[n] else TIMEOUT
  }

  lemma {:induction false} SenderAfterMore(f: File, q: Sender, input: seq<int>, n: nat)
    requires q.Fits(f)
    ensures SenderAfter(f, q, input, n + 1) == React(f, SenderAfter(f, q, input, n), Answer(input, n))
    decreases n
  {
    hide React;
    if n > 0 {
      SenderAfterMore(f, React(f, q, Next(input)), Rest(input), n - 1);
      assert Answer(Rest(input), n - 1) == Answer(input, n);
    }
  }

  /** In turn `k` a block 0 was answered with 'C'. */
  predicate AskedAgain(f: File, input: seq<int>, k: nat) {
    SenderAfter(f, Hello(1), input, k).Header? && Answer(input, k) == CRC
  }

  ghost predicate AskedAgainBefore(f: File, input: seq<int>, n: nat) {
    exists k: nat :: k < n && AskedAgain(f, input, k)
  }

  lemma AskedAgainLater(f: File, input: seq<int>, n: nat)
    ensures AskedAgainBefore(f, input, n + 1) <==> AskedAgainBefore(f, input, n) || AskedAgain(f, input, n)
  {
    hide AskedAgain;
  }

  /** While block 0 is being negotiated, one such 'C' is what the sender remembers. */
  ghost predicate Remembers(f: File, input: seq<int>, n: nat) {
    match SenderAfter(f, Hello(1), input, n)
    case Hello(_) => !AskedAgainBefore(f, input, n)
    case Header(mayC) => mayC <==> !AskedAgainBefore(f, input, n)
    case HeaderAcked(mayC) => mayC <==> !AskedAgainBefore(f, input, n)
    case _ => true
  }

  lemma {:induction false} AlwaysRemembers(f: File, input: seq<int>, n: nat)
    ensures Remembers(f, input, n)
  {
    if n > 0 {
      hide AskedAgainBefore, SenderAfter, AfterPackets;
      AlwaysRemembers(f, input, n - 1);
      AskedAgainLater(f, input, n - 1);
      SenderAfterMore(f, Hello(1), input, n - 1);
    } else {
      assert !AskedAgainBefore(f, input, 0);
    }
  }

  function Skip(input: seq<int>, n: nat): seq<int> {
    if n <= |input| then input[n..] else []
  }

  /** The conversation goes on from every state it passes. */
  lemma {:induction false} DriveFrom(f: File, q: Sender, input: seq<int>, n: nat)
    requires f.Valid() && q.Fits(f)
    ensures Drive(f, q, input).last == Drive(f, SenderAfter(f, q, input, n), Skip(input, n)).last
    decreases n
  {
    hide React, Emits;
    if n == 0 {
      assert Skip(input, 0) == input;
    } else {
      DriveFrom(f, React(f, q, Next(input)), Rest(input), n - 1);
      assert Skip(Rest(input), n - 1) == Skip(input, n);
      if q.Over() {
        OverStays(f, q, Next(input));
      }
    }
  }

  lemma OverStays(f: File, q: Sender, ch: int)
    requires q.Fits(f) && q.Over()
    ensures React(f, q, ch) == q
  {
  }

  /**
   A NAK to block 0, wherever it comes in whatever conversation, repeats the block if and only if
   an earlier block 0 was answered with 'C'; otherwise the transfer is aborted for good.
   */
  lemma NakRepeatsHeaderExactly(f: File, input: seq<int>, n: nat)
    requires f.Valid() && SenderAfter(f, Hello(1), input, n).Header? && Answer(input, n) == NAK
    ensures SenderAfter(f, Hello(1), input, n + 1).Header? <==> AskedAgainBefore(f, input, n)
    ensures !AskedAgainBefore(f, input, n) ==> Drive(f, Hello(1), input).last == Aborted
  {
    hide Drive, SenderAfter, AskedAgainBefore, File.Valid;
    AlwaysRemembers(f, input, n);
    SenderAfterMore(f, Hello(1), input, n);
    if !AskedAgainBefore(f, input, n) {
      DriveFrom(f, Hello(1), input, n + 1);
      AbortedIsFinal(f, Skip(input, n + 1));
    }
  }

  lemma AbortedIsFinal(f: File, input: seq<int>)
    requires f.Valid()
    ensures Drive(f, Aborted, input).last == Aborted
  {
  }

  /** The shortest such conversation. */
  lemma FirstNakAborts(f: File, later: seq<int>)
    requires f.Valid()
    ensures Drive(f, Hello(1), [CRC, NAK] + later).last == Aborted
  {
    var input := [CRC, NAK] + later;
    assert SenderAfter(f, Hello(1), input, 1) == Header(true) by {
      assert SenderAfter(f, Header(true), Rest(input), 0) == Header(true);
    }
    assert !AskedAgain(f, input, 0) by {
      assert SenderAfter(f, Hello(1), input, 0) == Hello(1);
    }
    hide Drive, SenderAfter, AskedAgain;
    NakRepeatsHeaderExactly(f, input, 1);
  }

  // ----- the source's own loops -----

  /** The serial line as the sender sees it: characters still to come, and a record of the talk. */
  class Line {
    var input: seq<int>
    var pending: seq<byte>
    var turns: seq<Turn>

    /** Continuing as the automaton does from `q` on ends in `goal`. */
    ghost predicate Tracks(f: File, goal: Outcome, q: Sender)
      reads this`input, this`turns
    {
      && f.Valid() && q.Fits(f)
      && var r := Drive(f, q, input);
        goal == Outcome(turns + r.turns, r.last)
    }

    method PutChars(s: seq<byte>)
      modifies this`pending
      ensures pending == old(pending) + s
    {
      pending := pending + s;
    }

    /** `_getchar`, at a point where the automaton is in the state `q`. */
    method GetChar(ghost f: File, ghost goal: Outcome, ghost q: Sender) returns (ch: int)
      requires f.Valid() && q.Fits(f) && Tracks(f, goal, q) && !q.Over() && pending == Emits(f, q)
      modifies this
      ensures ch == Next(old(input)) && input == Rest(old(input))
      ensures pending == [] && Tracks(f, goal, React(f, q, ch))
    {
      hide Emits, React;
      ghost var r := Drive(f, React(f, q, Next(input)), Rest(input));
      assert turns + ([Turn(Emits(f, q), Next(input))] + r.turns)
          == (turns + [Turn(Emits(f, q), Next(input))]) + r.turns;
      if input == [] {
        ch := TIMEOUT;
      } else {
        ch := input[0];
        input := input[1..];
      }
      turns := turns + [Turn(pending, ch)];
      pending := [];
    }

    /** `send_packet` of the first 128 bytes of `data`. */
    method SendPacket(data: seq<byte>, blockNo: nat)
      requires |data| >= PACKET_SIZE
      modifies this`pending
      ensures pending == old(pending) + PacketBytes(data[..PACKET_SIZE], blockNo)
    {
      hide CrcTheory.Iterate, CrcCcitt.BigEndian;
      var block := data[..PACKET_SIZE];
      var crc := CrcCcitt.Crc16(Octets(block), PACKET_SIZE);
      assert Octets(block)[..PACKET_SIZE] == Octets(block);
      var head := [SOH, Low(blockNo), 255 - Low(blockNo)];
      PutChars(head);
      PutChars(block);
      var swapped := CrcCcitt.BigEndian(crc);
      var tail := [FromOctet(swapped[0]), FromOctet(swapped[1])];
      assert tail == CrcBytes(block);
      PutChars(tail);
      assert old(pending) + head + block + tail == old(pending) + (head + block + tail);
    }

    /** `send_packet0`. */
    method SendPacket0(name: Option<seq<byte>>, size: nat)
      requires size < WORD_COUNT && (name.Some? ==> CString(name.value))
      modifies this`pending
      ensures pending == old(pending)
        + PacketBytes(if name.Some? then HeaderBlock(name.value, size) else Zeros(PACKET_SIZE), 0)
    {
      hide PacketBytes, HeaderBlock;
      var block := BuildHeader(name, size);
      SendPacket(block[..], 0);
      assert block[..][..PACKET_SIZE] == block[..];
    }

    /** `send_data_packets`: the packets, EOT, and the closing block. */
    method SendDataPackets(f: File, ghost goal: Outcome) returns (ret: int, ghost q: Sender)
      requires f.Valid() && Tracks(f, goal, AfterPackets(f, 0)) && pending == []
      modifies this
      ensures q.Fits(f) && Tracks(f, goal, q) && pending == []
      ensures (ret == 0 && q == Sent) || (ret == -1 && q == Failed)
    {
      hide PacketBytes, Tracks, Drive;
      var blockNo: nat := 1;
      var at: nat := 0;
      var size := f.size;
      while size > 0
        invariant blockNo >= 1 && blockNo - 1 <= f.Blocks() && pending == []
        invariant Tracks(f, goal, AfterPackets(f, blockNo - 1))
        invariant blockNo - 1 < f.Blocks() ==> at == PACKET_SIZE * (blockNo - 1) && size == f.size - at
        invariant blockNo - 1 == f.Blocks() ==> size == 0
        decreases |input|
      {
        var sendSize := if size > PACKET_SIZE then PACKET_SIZE else size;
        SendPacket(f.data[at..], blockNo);
        assert f.data[at..][..PACKET_SIZE] == f.Block(blockNo - 1);
        q := Sending(blockNo - 1);
        assert pending == Emits(f, q);
        var ch := GetChar(f, goal, q);
        if ch == ACK {
          blockNo := blockNo + 1;
          at := at + sendSize;
          size := size - sendSize;
        } else if ch == CAN as int || ch == -1 {
          q := Failed;
          return -1, q;
        }
      }
      ret, q := FinishTransfer(f, goal);
    }

    /** The part of `send_data_packets` behind the packets. */
    method FinishTransfer(f: File, ghost goal: Outcome) returns (ret: int, ghost q: Sender)
      requires f.Valid() && Tracks(f, goal, End) && pending == []
      modifies this
      ensures q.Fits(f) && Tracks(f, goal, q) && pending == []
      ensures (ret == 0 && q == Sent) || (ret == -1 && q == Failed)
    {
      hide PacketBytes, Tracks, Drive;
      var ch;
      while true
        invariant Tracks(f, goal, End) && pending == []
        decreases |input|
      {
        PutChars([EOT]);
        assert pending == Emits(f, End);
        ch := GetChar(f, goal, End);
        if ch == ACK || ch == -1 {
          break;
        }
      }
      if ch == ACK {
        ch := GetChar(f, goal, EndAcked);
        if ch == CRC {
          while true
            invariant Tracks(f, goal, Closing) && pending == []
            decreases |input|
          {
            SendPacket0(None, 0);
            assert pending == Emits(f, Closing);
            ch := GetChar(f, goal, Closing);
            if ch == ACK || ch == -1 {
              break;
            }
          }
          if ch == ACK {
            return 0, Sent;
          }
        }
      }
      return -1, Failed;
    }

    /**
     `ymodem_send`. For every sequence of answers the conversation is the automaton's, and the
     size is returned exactly when the automaton ends in `Sent`.
     */
    method YmodemSend(f: File) returns (ret: int)
      requires f.Valid() && pending == []
      modifies this
      ensures var r := Drive(f, Hello(1), old(input));
        && turns == old(turns) + r.turns
        && pending == Emits(f, r.last)
        && r.last.Over()
        && ret == if r.last.Sent? then f.size else -1
    {
      hide PacketBytes, HeaderBlock;
      ghost var r := Drive(f, Hello(1), input);
      ghost var goal := Outcome(turns + r.turns, r.last);
      var ch;
      var timeoutCount: nat := 1;
      while true
        invariant 1 <= timeoutCount <= 4 && pending == []
        invariant Tracks(f, goal, Hello(timeoutCount))
        decreases 4 - timeoutCount
      {
        ch := GetChar(f, goal, Hello(timeoutCount));
        if !(ch < 0 && timeoutCount < 4) {
          break;
        }
        timeoutCount := timeoutCount + 1;
      }
      ret := -1;
      if ch == CRC {
        ghost var q;
        ret, q := Negotiate(f, goal);
      }
    }

    /** The loop of `ymodem_send` around block 0, and what follows it. */
    method Negotiate(f: File, ghost goal: Outcome) returns (ret: int, ghost q: Sender)
      requires f.Valid() && Tracks(f, goal, Header(true)) && pending == []
      modifies this
      ensures q.Fits(f) && Tracks(f, goal, q) && q.Over() && pending == Emits(f, q)
      ensures ret == if q.Sent? then f.size else -1
    {
      hide PacketBytes, HeaderBlock, Tracks, Drive;
      var crcNak := true;
      while true
        invariant Tracks(f, goal, Header(crcNak)) && pending == []
        decreases |input|, crcNak
      {
        SendPacket0(Some(f.name), f.size);
        assert pending == Emits(f, Header(crcNak));
        var ch := GetChar(f, goal, Header(crcNak));
        if ch == ACK {
          ch := GetChar(f, goal, HeaderAcked(crcNak));
          if ch == CRC {
            ret, q := SendDataPackets(f, goal);
            if ret != -1 {
              ret := f.size;
            }
            return;
          }
        } else if ch == CRC && crcNak {
          crcNak := false;
        } else if ch != NAK || crcNak {
          break;
        }
      }
      PutChars([CAN, CAN]);
      assert pending == Emits(f, Aborted);
      return -1, Aborted;
    }
  }
}
