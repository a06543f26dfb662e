/** The RS-485 frame of protocol_packet.h, as the bytes the packed struct occupies. */
module Packets {
  import opened Bytes
  import opened Buffers

  const HEAD0: byte := 0xF7
  const HEAD1: byte := 0xF8
  const PACKET_END: byte := 0xFD
  const PACKET_MINLEN := 9
  /** Header of seven bytes and a data block of 255. */
  const STRUCT_SIZE := 262

  /** The memory of one `Packet`, stale bytes behind the frame included. */
  type Image = s: seq<byte> | |s| == STRUCT_SIZE witness Zeros(STRUCT_SIZE)

  /** `std::accumulate` cut to one byte. */
  function Sum(s: seq<byte>): byte {
    if s == [] then 0 else Low(Sum(s[..|s| - 1]) + s[|s| - 1])
  }

  /** The length byte counts itself, the addresses, the codes and the data. */
  function LengthByte(s: seq<byte>): (n: nat)
    requires |s| > 2
    ensures n < 256
  {
    s[2]
  }

  /** `GetPacketLen`. */
  function FrameLen(s: seq<byte>): nat
    requires |s| > 2
  {
    LengthByte(s) + 4
  }

  /** Two head bytes, a checksum over the counted bytes, and the end byte. */
  predicate IsFrame(s: seq<byte>) {
    && |s| > 2
    && s[0] == HEAD0 && s[1] == HEAD1
    && FrameLen(s) <= |s|
    && s[LengthByte(s) + 2] == Sum(s[2..LengthByte(s) + 2])
    && s[LengthByte(s) + 3] == PACKET_END
  }

  /** The bytes of the frame itself. */
  function Wire(s: seq<byte>): seq<byte>
    requires |s| > 2 && FrameLen(s) <= |s|
  {
    s[..FrameLen(s)]
  }

  lemma ImageHoldsFrame(p: Image)
    ensures FrameLen(p) <= |p|
  {
  }

  function Src(p: Image): byte { p[3] }
  function Dest(p: Image): byte { p[4] }
  function Type(p: Image): byte { p[5] }
  function Fun(p: Image): byte { p[6] }

  /** The data block between the function code and the checksum. */
  function Data(p: Image): seq<byte>
    requires LengthByte(p) >= 5
  {
    p[7..LengthByte(p) + 2]
  }

  /** The bytes `GetDataLen` counts as one byte: the data block, or too much when there is none. */
  function Carried(p: Image): (s: seq<byte>)
    ensures LengthByte(p) >= 5 ==> s == Data(p)
    ensures |s| < 256
  {
    p[7..7 + (LengthByte(p) + 251) % 256]
  }

  /** `GetPacketID`: the checksum byte. */
  function PacketId(p: Image): byte {
    ImageHoldsFrame(p);
    p[LengthByte(p) + 2]
  }

  // ----- what the checksum is -----

  /** The plain sum, without any cut. */
  function Total(s: seq<byte>): nat {
    if s == [] then 0 else s[0] + Total(s[1..])
  }

  lemma {:induction false} TotalSnoc(s: seq<byte>, b: byte)
    ensures Total(s + [b]) == Total(s) + b
  {
    if s == [] {
      assert s + [b] == [b];
      assert Total([b][1..]) == 0;
    } else {
      assert (s + [b])[1..] == s[1..] + [b];
      TotalSnoc(s[1..], b);
    }
  }

  /** The checksum is the plain sum modulo 256. */
  lemma {:induction false} SumIsTotal(s: seq<byte>)
    ensures Sum(s) == Total(s) % 256
  {
    if s != [] {
      var front, b := s[..|s| - 1], s[|s| - 1];
      SumIsTotal(front);
      TotalSnoc(front, b);
      assert s == front + [b];
      hide Total;
      CutOnce(Total(front), b);
    }
  }

  lemma CutOnce(n: nat, b: byte)
    ensures Low(n % 256 + b) == (n + b) % 256
  {
  }

  lemma {:induction false} TotalChanged(s: seq<byte>, i: nat, b: byte)
    requires i < |s|
    ensures Total(s[i := b]) == Total(s) - s[i] + b
  {
    if i > 0 {
      assert s[i := b][1..] == s[1..][i - 1 := b];
      TotalChanged(s[1..], i - 1, b);
    } else {
      assert s[0 := b][1..] == s[1..];
    }
  }

  /** One changed byte changes it. */
  lemma SumChanged(s: seq<byte>, i: nat, b: byte)
    requires i < |s| && b != s[i]
    ensures Sum(s[i := b]) != Sum(s)
  {
    hide Sum, Total;
    SumIsTotal(s);
    SumIsTotal(s[i := b]);
    TotalChanged(s, i, b);
    assert (Total(s) - s[i] + b) % 256 != Total(s) % 256 by { Remainders(Total(s), b - s[i]); }
  }

  lemma Remainders(n: nat, d: int)
    requires -256 < d < 256 && d != 0 && n + d >= 0
    ensures (n + d) % 256 != n % 256
  {
  }

  // ----- building a frame -----

  /** The length byte is one byte wide: it wraps for data blocks of more than 250 bytes. */
  function BuiltLength(data: Option<seq<byte>>): byte {
    match data
    case None => 5
    case Some(block) => Low(5 + |block|)
  }

  function Block(data: Option<seq<byte>>): seq<byte> {
    if data.Some? then data.value else []
  }

  /** Header and data block written over the memory `p`. */
  function Headed(p: Image, src: byte, dest: byte, ty: byte, fun: byte, data: Option<seq<byte>>): Image
    requires |Block(data)| < 256
  {
    [HEAD0, HEAD1, BuiltLength(data), src, dest, ty, fun] + Block(data) + p[7 + |Block(data)|..]
  }

  lemma HeadedAt(p: Image, src: byte, dest: byte, ty: byte, fun: byte, data: Option<seq<byte>>)
    requires |Block(data)| < 256
    ensures var h, n := Headed(p, src, dest, ty, fun, data), |Block(data)|;
      && h[0] == HEAD0 && h[1] == HEAD1 && h[2] == BuiltLength(data)
      && Src(h) == src && Dest(h) == dest && Type(h) == ty && Fun(h) == fun
      && (forall i | 0 <= i < n :: h[7 + i] == Block(data)[i])
      && (forall i | 7 + n <= i < STRUCT_SIZE :: h[i] == p[i])
  {
  }

  /**
   What `BuildPacket` leaves in memory. A wrapped length byte puts the checksum and the end
   byte inside the header.
   */
  function Built(p: Image, src: byte, dest: byte, ty: byte, fun: byte, data: Option<seq<byte>>): Image
    requires |Block(data)| < 256
  {
    WithTail(Headed(p, src, dest, ty, fun, data))
  }

  /** Checksum and end byte put where the length byte says. */
  function WithTail(p: Image): Image {
    ImageHoldsFrame(p);
    var n := LengthByte(p);
    var q := p[n + 2 := Sum(p[2..n + 2])];
    q[n + 3 := PACKET_END]
  }

  /** `ReCheckSUM`: the checksum is written afresh, the end byte is not. */
  function Rechecked(p: Image): Image {
    ImageHoldsFrame(p);
    p[LengthByte(p) + 2 := Sum(p[2..LengthByte(p) + 2])]
  }

  /** struct Packet with its methods. */
  class Packet {
    const mem: array<byte>

    ghost predicate Valid()
      reads this
    {
      mem.Length == STRUCT_SIZE
    }

    function Memory(): Image
      requires Valid()
      reads this, mem
    {
      mem[..]
    }

    /** A local variable of struct type: whatever the memory happened to hold. */
    constructor (stale: Image)
      ensures Valid() && fresh(mem) && Memory() == stale
    {
      mem := new byte[STRUCT_SIZE](i requires 0 <= i < STRUCT_SIZE => stale[i]);
    }

    /** `CheckSUM` over `n` bytes from offset `at`: an `int` sum, cut to a byte at the end. */
    method CheckSum(at: nat, n: nat) returns (sum: byte)
      requires Valid() && at + n <= STRUCT_SIZE
      ensures sum == Sum(Memory()[at..at + n])
    {
      var total: nat := 0;
      for i := 0 to n
        invariant Low(total) == Sum(Memory()[at..at + i])
      {
        assert Memory()[at..at + i + 1][..i] == Memory()[at..at + i];
        total := total + mem[at + i];
      }
      sum := Low(total);
    }

    method BuildPacket(src: byte, dest: byte, ty: byte, fun: byte, data: Option<seq<byte>>) returns (n: nat)
      requires Valid()
      requires |Block(data)| < 256
      modifies mem
      ensures Memory() == Built(old(Memory()), src, dest, ty, fun, data)
      ensures n == FrameLen(Memory())
    {
      hide Sum;
      WriteHeader(src, dest, ty, fun, data);
      WriteTail();
      n := mem[2] as int + 4;
    }

    method WriteHeader(src: byte, dest: byte, ty: byte, fun: byte, data: Option<seq<byte>>)
      requires Valid()
      requires |Block(data)| < 256
      modifies mem
      ensures Memory() == Headed(old(Memory()), src, dest, ty, fun, data)
    {
      hide Headed, Low;
      ghost var p := Memory();
      mem[0], mem[1] := HEAD0, HEAD1;
      mem[3], mem[4], mem[5], mem[6] := src, dest, ty, fun;
      mem[2] := 5;
      if data.Some? {
        forall i | 0 <= i < |data.value| {
          mem[7 + i] := data.value[i];
        }
        mem[2] := Low(mem[2] + |data.value|);
      }
      ghost var h := Headed(p, src, dest, ty, fun, data);
      HeadedAt(p, src, dest, ty, fun, data);
      assert forall i | 0 <= i < STRUCT_SIZE :: mem[i] == h[i];
    }

    method WriteTail()
      requires Valid()
      modifies mem
      ensures Memory() == WithTail(old(Memory()))
      ensures mem[2] as int + 4 == FrameLen(Memory())
    {
      hide Sum;
      var len: int := mem[2];
      var sum := CheckSum(2, len);
      mem[len + 2] := sum;
      mem[len + 3] := PACKET_END;
    }

    method SetType(ty: byte)
      requires Valid()
      modifies mem
      ensures Memory() == old(Memory())[5 := ty]
    {
      mem[5] := ty;
    }

    method SetFunction(fun: byte)
      requires Valid()
      modifies mem
      ensures Memory() == old(Memory())[6 := fun]
    {
      mem[6] := fun;
    }

    method ReCheckSum()
      requires Valid()
      modifies mem
      ensures Memory() == Rechecked(old(Memory()))
    {
      hide Sum;
      var len: int := mem[2];
      var sum := CheckSum(2, len);
      mem[len + 2] := sum;
    }
  }
}
