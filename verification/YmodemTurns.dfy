/**
 What the sender does next, told from the record of the conversation alone: the bytes it put on
 the line and the characters it read, turn by turn. 0x06 is ACK, 0x15 NAK, 0x18 CAN, 0x43 'C',
 0x04 EOT, and a timeout is -1.
 */
module YmodemTurns {
  import opened Bytes
  import opened YmodemFormat
  import opened YmodemSender

  function Turns(f: File, input: seq<int>): seq<Turn>
    requires f.Valid()
  {
    Drive(f, Hello(1), input).turns
  }

  function Result(f: File, input: seq<int>): Sender
    requires f.Valid()
  {
    Drive(f, Hello(1), input).last
  }

  function At(f: File, input: seq<int>, i: nat): (q: Sender)
    requires f.Valid()
    ensures q.Fits(f)
  {
    SenderAfter(f, Hello(1), input, i)
  }

  // ----- turns and states -----

  lemma {:induction false} TurnIs(f: File, q: Sender, input: seq<int>, i: nat)
    requires f.Valid() && q.Fits(f) && i <= |Drive(f, q, input).turns|
    ensures var d, s := Drive(f, q, input), SenderAfter(f, q, input, i);
      if i < |d.turns| then !s.Over() && d.turns[i] == Turn(Emits(f, s), Answer(input, i))
      else s.Over() && d.last == s
    decreases i
  {
    hide React, Emits;
    if i > 0 {
      TurnIs(f, React(f, q, Next(input)), Rest(input), i - 1);
      assert Answer(Rest(input), i - 1) == Answer(input, i);
    }
  }

  /** One step of the conversation as the record shows it. */
  lemma TurnStep(f: File, input: seq<int>, i: nat)
    requires f.Valid() && i < |Turns(f, input)|
    ensures var q, t := At(f, input, i), Turns(f, input)[i];
      && !q.Over() && t.out == Emits(f, q) && t.ch == Answer(input, i)
      && At(f, input, i + 1) == React(f, q, t.ch)
    ensures var q' := At(f, input, i + 1);
      if i + 1 < |Turns(f, input)| then !q'.Over() && Turns(f, input)[i + 1].out == Emits(f, q')
      else q'.Over() && Result(f, input) == q'
  {
    hide React, Emits, Drive;
    TurnIs(f, Hello(1), input, i);
    TurnIs(f, Hello(1), input, i + 1);
    SenderAfterMore(f, Hello(1), input, i);
  }

  /** What each kind of transmission looks like. */
  lemma Shapes(f: File, q: Sender)
    requires f.Valid() && q.Fits(f) && !q.Over()
    ensures Emits(f, q) == [0x04] <==> q.End?
    ensures Emits(f, q) == [] <==> q.Hello? || q.HeaderAcked? || q.EndAcked?
  {
    hide PacketBytes, HeaderBlock, File.Block;
  }

  // ----- data packets -----

  /** Block 0 was acknowledged and asked for by turn `n`: data packets begin with turn `n`. */
  ghost predicate Opened(turns: seq<Turn>, n: int) {
    && 2 <= n <= |turns|
    && turns[n - 2].out != [] && turns[n - 2].out != [0x04] && turns[n - 2].ch == 0x06
    && turns[n - 1] == Turn([], 0x43)
  }

  /** Turn `i` belongs to the data packets begun with turn `n`: EOT was not sent yet. */
  ghost predicate InData(turns: seq<Turn>, n: int, i: int) {
    && Opened(turns, n) && n <= i < |turns|
    && forall j | n <= j <= i :: turns[j].out != [0x04]
  }

  /** How many of the turns from `n` until before `i` were answered with ACK. */
  function Acks(turns: seq<Turn>, n: int, i: int): nat
    requires 0 <= n <= i <= |turns|
    decreases i - n
  {
    if i == n then 0 else Acks(turns, n, i - 1) + if turns[i - 1].ch == 0x06 then 1 else 0
  }

  lemma OpenedState(f: File, input: seq<int>, n: int)
    requires f.Valid() && Opened(Turns(f, input), n)
    ensures At(f, input, n) == AfterPackets(f, 0)
  {
    hide Turns, At, Emits;
    TurnStep(f, input, n - 2);
    TurnStep(f, input, n - 1);
    Shapes(f, At(f, input, n - 2));
    Shapes(f, At(f, input, n - 1));
  }

  lemma TurnIsPart(f: File, input: seq<int>, n: int, i: int)
    requires f.Valid() && InData(Turns(f, input), n, i)
    ensures 0 <= n <= i < |Turns(f, input)|
  {
  }

  lemma InDataEarlier(turns: seq<Turn>, n: int, i: int)
    requires InData(turns, n, i)
    ensures n < i ==> InData(turns, n, i - 1)
    ensures turns[i].out != [0x04]
  {
  }

  lemma DataStateFirst(f: File, input: seq<int>, n: int)
    requires f.Valid() && InData(Turns(f, input), n, n)
    ensures At(f, input, n) == Sending(0)
  {
    InDataEarlier(Turns(f, input), n, n);
    OpenedState(f, input, n);
    hide Turns, At, Emits, Opened;
    TurnStep(f, input, n);
    Shapes(f, At(f, input, n));
  }

  lemma DataStateNext(f: File, input: seq<int>, i: int, k: nat)
    requires f.Valid() && 0 < i < |Turns(f, input)| && At(f, input, i - 1) == Sending(k)
    requires Turns(f, input)[i].out != [0x04]
    ensures At(f, input, i) == Sending(k + if Turns(f, input)[i - 1].ch == 0x06 then 1 else 0)
  {
    hide Turns, At, Emits;
    TurnStep(f, input, i - 1);
    TurnStep(f, input, i);
    Shapes(f, At(f, input, i));
  }

  lemma {:induction false} DataState(f: File, input: seq<int>, n: int, i: int)
    requires f.Valid() && InData(Turns(f, input), n, i)
    ensures At(f, input, i) == Sending(Acks(Turns(f, input), n, i))
    decreases i
  {
    TurnIsPart(f, input, n, i);
    InDataEarlier(Turns(f, input), n, i);
    hide Turns, At, InData;
    if i == n {
      DataStateFirst(f, input, n);
    } else {
      DataState(f, input, n, i - 1);
      DataStateNext(f, input, i, Acks(Turns(f, input), n, i - 1));
    }
  }

  /** The packet on the line is the one whose number is that of the packets acknowledged so far. */
  lemma DataPacketSent(f: File, input: seq<int>, n: int, i: int)
    requires f.Valid() && InData(Turns(f, input), n, i)
    ensures var k := Acks(Turns(f, input), n, i);
      k < f.Blocks() && Turns(f, input)[i].out == f.DataPacket(k)
  {
    hide Turns, At, InData, File.DataPacket;
    DataState(f, input, n, i);
    TurnIsPart(f, input, n, i);
    TurnStep(f, input, i);
  }

  /** An answer other than ACK, CAN or a timeout brings the same packet again. */
  lemma DataPacketRepeated(f: File, input: seq<int>, n: int, i: int)
    requires f.Valid() && InData(Turns(f, input), n, i)
    requires Turns(f, input)[i].ch != 0x06 && Turns(f, input)[i].ch != 0x18 && Turns(f, input)[i].ch != -1
    ensures i + 1 < |Turns(f, input)| && Turns(f, input)[i + 1].out == Turns(f, input)[i].out
    ensures InData(Turns(f, input), n, i + 1)
  {
    TurnIsPart(f, input, n, i);
    hide Turns, At, Emits, Opened;
    DataState(f, input, n, i);
    TurnStep(f, input, i);
  }

  /** An ACK brings the next packet, or EOT behind the last. */
  lemma DataPacketFollowed(f: File, input: seq<int>, n: int, i: int)
    requires f.Valid() && InData(Turns(f, input), n, i) && Turns(f, input)[i].ch == 0x06
    ensures var k := Acks(Turns(f, input), n, i) + 1;
      && i + 1 < |Turns(f, input)| && k <= f.Blocks()
      && Turns(f, input)[i + 1].out == if k < f.Blocks() then f.DataPacket(k) else [0x04]
  {
    hide Turns, At, InData, File.DataPacket;
    TurnIsPart(f, input, n, i);
    DataState(f, input, n, i);
    TurnStep(f, input, i);
  }

  /** CAN or a timeout ends the transfer. */
  lemma DataPacketGivenUp(f: File, input: seq<int>, n: int, i: int)
    requires f.Valid() && InData(Turns(f, input), n, i)
    requires Turns(f, input)[i].ch == 0x18 || Turns(f, input)[i].ch == -1
    ensures i + 1 == |Turns(f, input)| && Result(f, input) == Failed
  {
    hide Turns, At, Emits, InData, Result;
    TurnIsPart(f, input, n, i);
    DataState(f, input, n, i);
    TurnStep(f, input, i);
  }

  // ----- EOT and the closing block -----

  /** EOT is repeated until ACK or a timeout; behind its ACK only 'C' brings the closing block. */
  lemma EotAnswered(f: File, input: seq<int>, i: nat)
    requires f.Valid() && i < |Turns(f, input)| && Turns(f, input)[i].out == [0x04]
    ensures var turns := Turns(f, input);
      if turns[i].ch == -1 then i + 1 == |turns| && Result(f, input) == Failed
      else if turns[i].ch != 0x06 then i + 1 < |turns| && turns[i + 1].out == [0x04]
      else
        && i + 1 < |turns| && turns[i + 1].out == []
        && (if turns[i + 1].ch == 0x43 then i + 2 < |turns| && turns[i + 2].out == CLOSING_PACKET
            else i + 2 == |turns| && Result(f, input) == Failed)
  {
    hide Turns, At, Result, PacketBytes;
    TurnStep(f, input, i);
    Shapes(f, At(f, input, i));
    if Turns(f, input)[i].ch == 0x06 {
      TurnStep(f, input, i + 1);
    }
  }

  /** Turn `i` belongs to the closing block begun with turn `n`. */
  ghost predicate InClosing(turns: seq<Turn>, n: int, i: int) {
    2 <= n <= i < |turns| && turns[n - 2] == Turn([0x04], 0x06) && turns[n - 1] == Turn([], 0x43)
  }

  lemma {:induction false} ClosingState(f: File, input: seq<int>, n: int, i: int)
    requires f.Valid() && InClosing(Turns(f, input), n, i)
    ensures At(f, input, i) == Closing
    decreases i
  {
    hide Turns, At, Emits;
    if i == n {
      TurnStep(f, input, n - 2);
      TurnStep(f, input, n - 1);
      Shapes(f, At(f, input, n - 2));
    } else {
      ClosingState(f, input, n, i - 1);
      TurnStep(f, input, i - 1);
    }
  }

  /** The closing block is repeated until ACK, which is the success, or a timeout. */
  lemma ClosingAnswered(f: File, input: seq<int>, n: int, i: int)
    requires f.Valid() && InClosing(Turns(f, input), n, i)
    ensures var turns := Turns(f, input);
      && turns[i].out == CLOSING_PACKET
      && (if turns[i].ch == 0x06 then i + 1 == |turns| && Result(f, input) == Sent
          else if turns[i].ch == -1 then i + 1 == |turns| && Result(f, input) == Failed
          else i + 1 < |turns| && turns[i + 1].out == CLOSING_PACKET)
  {
    hide Turns, At, Result, PacketBytes;
    ClosingState(f, input, n, i);
    TurnStep(f, input, i);
  }

  // ----- block 0 -----

  /** Before the data packets: nothing was opened by turn `i`, and something is on the line. */
  ghost predicate Asking(turns: seq<Turn>, i: int) {
    0 <= i < |turns| && turns[i].out != [] && forall n | n <= i :: !Opened(turns, n)
  }

  lemma {:induction false} OpenedBefore(f: File, input: seq<int>, i: nat) returns (n: int)
    requires f.Valid() && i <= |Turns(f, input)|
    requires var q := At(f, input, i); q.Sending? || q.End? || q.EndAcked? || q.Closing?
    ensures n <= i && Opened(Turns(f, input), n)
    decreases i
  {
    hide Turns, Emits;
    assert At(f, input, 0) == Hello(1);
    hide At;
    TurnStep(f, input, i - 1);
    var q := At(f, input, i - 1);
    if q.HeaderAcked? {
      assert !At(f, input, 0).HeaderAcked?;
      TurnStep(f, input, i - 2);
      Shapes(f, q);
      HeaderAckedFrom(f, At(f, input, i - 2), Turns(f, input)[i - 2].ch);
      Shapes(f, At(f, input, i - 2));
      n := i;
    } else {
      n := OpenedBefore(f, input, i - 1);
    }
  }

  lemma HeaderAckedFrom(f: File, q: Sender, ch: int)
    requires q.Fits(f) && React(f, q, ch).HeaderAcked? && !q.Over()
    ensures q.Header? && ch == 0x06
  {
  }

  lemma AskingState(f: File, input: seq<int>, i: int)
    requires f.Valid() && Asking(Turns(f, input), i)
    ensures At(f, input, i).Header?
  {
    hide Turns, At, Emits, Opened;
    TurnStep(f, input, i);
    var q := At(f, input, i);
    Shapes(f, q);
    if q.Sending? || q.End? || q.EndAcked? || q.Closing? {
      var n := OpenedBefore(f, input, i);
      assert false;
    }
  }

  /**
   Block 0: behind its ACK only 'C' opens the data packets, anything else brings block 0 again;
   'C' instead of ACK is excused once; any other answer but NAK ends the transfer with CAN, CAN.
   (For NAK see `NakRepeatsHeaderExactly`.)
   */
  lemma HeaderAnswered(f: File, input: seq<int>, i: int)
    requires f.Valid() && Asking(Turns(f, input), i)
    ensures var turns := Turns(f, input);
      && turns[i].out == f.HeaderPacket()
      && (turns[i].ch == 0x06 ==>
            && i + 1 < |turns| && turns[i + 1].out == []
            && (turns[i + 1].ch == 0x43 ==> Opened(turns, i + 2) && At(f, input, i + 2) == AfterPackets(f, 0))
            && (turns[i + 1].ch != 0x43 ==> i + 2 < |turns| && turns[i + 2].out == f.HeaderPacket()))
      && (turns[i].ch == 0x43 ==>
            if AskedAgainBefore(f, input, i) then Result(f, input) == Aborted
            else i + 1 < |turns| && turns[i + 1].out == f.HeaderPacket())
      && (turns[i].ch != 0x06 && turns[i].ch != 0x43 && turns[i].ch != 0x15 ==>
            i + 1 == |turns| && Result(f, input) == Aborted && Emits(f, Result(f, input)) == [0x18, 0x18])
  {
    hide Turns, At, Result, File.HeaderPacket, AskedAgainBefore;
    AskingState(f, input, i);
    TurnStep(f, input, i);
    HeaderKnown(f, input, i);
    if Turns(f, input)[i].ch == 0x06 {
      TurnStep(f, input, i + 1);
      Shapes(f, At(f, input, i));
    }
  }

  lemma HeaderKnown(f: File, input: seq<int>, i: int)
    requires f.Valid() && i >= 0 && At(f, input, i).Header?
    ensures At(f, input, i).mayC <==> !AskedAgainBefore(f, input, i)
  {
    hide AskedAgainBefore, SenderAfter;
    AlwaysRemembers(f, input, i);
  }

  // ----- before the first 'C' -----

  function Timeouts(n: nat): (s: seq<int>)
    ensures |s| == n
  {
    seq(n, _ => -1)
  }

  function SilentTurns(n: nat): (s: seq<Turn>)
    ensures |s| == n
  {
    seq(n, _ => Turn([], -1))
  }

  lemma {:induction false} Waits(f: File, k: nat, t: nat, rest: seq<int>)
    requires f.Valid() && 1 <= k && k + t <= 4
    ensures var d, e := Drive(f, Hello(k), Timeouts(t) + rest), Drive(f, Hello(k + t), rest);
      d.turns == SilentTurns(t) + e.turns && d.last == e.last
    decreases t
  {
    hide Drive, Emits;
    var input, e := Timeouts(t) + rest, Drive(f, Hello(k + t), rest);
    if t == 0 {
      assert input == rest;
      assert SilentTurns(0) + e.turns == e.turns;
    } else {
      assert Rest(input) == Timeouts(t - 1) + rest && Next(input) == -1;
      Waits(f, k + 1, t - 1, rest);
      DriveUnfolds(f, Hello(k), input);
      Shapes(f, Hello(k));
      assert [Turn([], -1)] + (SilentTurns(t - 1) + e.turns) == SilentTurns(t) + e.turns;
    }
  }

  lemma DriveUnfolds(f: File, q: Sender, input: seq<int>)
    requires f.Valid() && q.Fits(f) && !q.Over()
    ensures var r := Drive(f, React(f, q, Next(input)), Rest(input));
      Drive(f, q, input) == Outcome([Turn(Emits(f, q), Next(input))] + r.turns, r.last)
  {
    hide React, Emits;
  }

  /** Up to three timeouts before the first 'C' change nothing but the time it takes. */
  lemma ThreeTimeoutsExcused(f: File, t: nat, rest: seq<int>)
    requires f.Valid() && t <= 3
    ensures Turns(f, Timeouts(t) + [0x43] + rest) == SilentTurns(t) + Turns(f, [0x43] + rest)
    ensures Result(f, Timeouts(t) + [0x43] + rest) == Result(f, [0x43] + rest)
  {
    var input := [0x43] + rest;
    assert Timeouts(t) + [0x43] + rest == Timeouts(t) + input;
    Waits(f, 1, t, input);
    hide Drive;
    DriveUnfolds(f, Hello(1 + t), input);
    DriveUnfolds(f, Hello(1), input);
    Shapes(f, Hello(1 + t));
    Shapes(f, Hello(1));
  }

  /** Four of them end the transfer, and so does anything else read in place of the 'C'. */
  lemma NoStartFails(f: File, t: nat, ch: int, rest: seq<int>)
    requires f.Valid() && t <= 3 && ch != 0x43 && (t == 3 || ch >= 0)
    ensures Result(f, Timeouts(t) + [ch] + rest) == Failed
    ensures forall i | 0 <= i < |Turns(f, Timeouts(t) + [ch] + rest)| :: Turns(f, Timeouts(t) + [ch] + rest)[i].out == []
  {
    var input := [ch] + rest;
    assert Timeouts(t) + [ch] + rest == Timeouts(t) + input;
    Waits(f, 1, t, input);
    FailedEnds(f, Rest(input));
    hide Drive;
    DriveUnfolds(f, Hello(1 + t), input);
    Shapes(f, Hello(1 + t));
  }

  lemma FailedEnds(f: File, input: seq<int>)
    requires f.Valid()
    ensures Drive(f, Failed, input) == Outcome([], Failed)
  {
  }

  // ----- a patient receiver -----

  /** Answers that neither acknowledge nor give up a data packet. */
  predicate DataNoise(s: seq<int>) {
    forall x | x in s :: x != 0x06 && x != 0x18 && x != -1
  }

  /** The same for EOT and the closing block, where CAN does not give up either. */
  predicate EndNoise(s: seq<int>) {
    forall x | x in s :: x != 0x06 && x != -1
  }

  /** Each packet acknowledged after some noise of its own. */
  function DataAnswers(noise: seq<seq<int>>): seq<int> {
    if noise == [] then [] else noise[0] + [0x06] + DataAnswers(noise[1..])
  }

  lemma {:induction false} Stays(f: File, q: Sender, noise: seq<int>, rest: seq<int>)
    requires f.Valid() && q.Fits(f) && !q.Over() && forall x | x in noise :: React(f, q, x) == q
    ensures Drive(f, q, noise + rest).last == Drive(f, q, rest).last
    decreases |noise|
  {
    hide React, Drive, Emits;
    if noise == [] {
      assert noise + rest == rest;
    } else {
      var input := noise + rest;
      assert Rest(input) == noise[1..] + rest && Next(input) == noise[0] && noise[0] in noise;
      DriveUnfolds(f, q, input);
      Stays(f, q, noise[1..], rest);
    }
  }

  lemma Advances(f: File, q: Sender, ch: int, rest: seq<int>)
    requires f.Valid() && q.Fits(f) && !q.Over()
    ensures Drive(f, q, [ch] + rest).last == Drive(f, React(f, q, ch), rest).last
  {
    hide React, Drive, Emits;
    DriveUnfolds(f, q, [ch] + rest);
    assert Rest([ch] + rest) == rest;
  }

  /** Noise that changes nothing, and the answer that does. */
  lemma Passes(f: File, q: Sender, noise: seq<int>, ch: int, rest: seq<int>)
    requires f.Valid() && q.Fits(f) && !q.Over() && forall x | x in noise :: React(f, q, x) == q
    ensures Drive(f, q, noise + [ch] + rest).last == Drive(f, React(f, q, ch), rest).last
  {
    hide React, Drive;
    assert noise + [ch] + rest == noise + ([ch] + rest);
    Stays(f, q, noise, [ch] + rest);
    Advances(f, q, ch, rest);
  }

  lemma {:induction false} AllDataPasses(f: File, k: nat, noise: seq<seq<int>>, rest: seq<int>)
    requires f.Valid() && k + |noise| == f.Blocks() && forall s | s in noise :: DataNoise(s)
    ensures Drive(f, AfterPackets(f, k), DataAnswers(noise) + rest).last == Drive(f, End, rest).last
    decreases |noise|
  {
    hide Drive, File.Blocks, File.Valid;
    if noise == [] {
      assert DataAnswers(noise) + rest == rest;
    } else {
      var later := DataAnswers(noise[1..]) + rest;
      assert DataNoise(noise[0]);
      assert DataAnswers(noise) + rest == noise[0] + [0x06] + later;
      Passes(f, Sending(k), noise[0], 0x06, later);
      AllDataPasses(f, k + 1, noise[1..], rest);
    }
  }

  /**
   A receiver that acknowledges everything in the end gets the whole transfer, however often it
   refuses before: the return value is the size.
   */
  lemma PatientReceiverSucceeds(f: File, t: nat, refusals: nat, noise: seq<seq<int>>, eot: seq<int>, closing: seq<int>,
                                rest: seq<int>)
    requires f.Valid() && t <= 3
    requires |noise| == f.Blocks() && forall s | s in noise :: DataNoise(s)
    requires EndNoise(eot) && EndNoise(closing)
    ensures Result(f, Timeouts(t) + [0x43] + Greeting(refusals)
                        + DataAnswers(noise) + (eot + [0x06, 0x43] + (closing + [0x06] + rest))) == Sent
  {
    hide Drive, File.Blocks, Greeting, DataAnswers, Timeouts;
    var last := closing + [0x06] + rest;
    var end := eot + [0x06, 0x43] + last;
    var data := DataAnswers(noise) + end;
    var talk := Greeting(refusals) + data;
    assert Timeouts(t) + [0x43] + Greeting(refusals) + DataAnswers(noise) + end == Timeouts(t) + [0x43] + talk;
    ThreeTimeoutsExcused(f, t, talk);
    Advances(f, Hello(1), 0x43, talk);
    GreetingPasses(f, refusals, data);
    AllDataPasses(f, 0, noise, end);
    EndPasses(f, eot, last);
    Passes(f, Closing, closing, 0x06, rest);
    SentIsFinal(f, rest);
  }

  /** No refusal of block 0 at all, or an excused 'C' followed by any number of NAKs. */
  function Greeting(refusals: nat): seq<int> {
    (if refusals == 0 then [] else [0x43] + seq(refusals - 1, _ => 0x15)) + [0x06, 0x43]
  }

  lemma GreetingPasses(f: File, refusals: nat, rest: seq<int>)
    requires f.Valid()
    ensures Drive(f, Header(true), Greeting(refusals) + rest).last == Drive(f, AfterPackets(f, 0), rest).last
  {
    hide Drive, File.Blocks, File.Valid;
    var more := [0x43] + rest;
    if refusals == 0 {
      assert Greeting(refusals) + rest == [0x06] + more;
      Advances(f, Header(true), 0x06, more);
      Advances(f, HeaderAcked(true), 0x43, rest);
    } else {
      var naks := seq(refusals - 1, _ => 0x15);
      assert Greeting(refusals) + rest == [0x43] + (naks + [0x06] + more);
      Advances(f, Header(true), 0x43, naks + [0x06] + more);
      Passes(f, Header(false), naks, 0x06, more);
      Advances(f, HeaderAcked(false), 0x43, rest);
    }
  }

  lemma EndPasses(f: File, eot: seq<int>, rest: seq<int>)
    requires f.Valid() && EndNoise(eot)
    ensures Drive(f, End, eot + [0x06, 0x43] + rest).last == Drive(f, Closing, rest).last
  {
    hide Drive, File.Blocks, File.Valid;
    assert eot + [0x06, 0x43] + rest == eot + [0x06] + ([0x43] + rest);
    Passes(f, End, eot, 0x06, [0x43] + rest);
    Advances(f, EndAcked, 0x43, rest);
  }

  lemma SentIsFinal(f: File, rest: seq<int>)
    requires f.Valid()
    ensures Drive(f, Sent, rest).last == Sent
  {
  }
}
