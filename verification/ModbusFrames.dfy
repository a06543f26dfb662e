/** The Modbus frames of the outdoor sensor link: building requests and checking replies. */
module ModbusFrames {
  import opened Bytes
  import opened CrcModbus
  import opened CrcTheory
  import CrcBurst
  import CrcParity
  import opened Buffers

  const PACKET_MINLEN := 6
  /** Address, command and 256 bytes of data. */
  const STRUCT_SIZE := 258
  const READ: byte := 0x03
  const WRITE: byte := 0x10

  /** The remainder over the bytes of a message, from the Modbus starting value. */
  function Residue(s: seq<byte>): word {
    MODBUS.Remainder(0xFFFF, Octets(s))
  }

  function BigEndianWord(w: nat): (s: seq<byte>)
    ensures |s| == 2
  {
    [Low(w / 256), Low(w)]
  }

  function CrcBytes(s: seq<byte>): (t: seq<byte>)
    ensures |t| == 2
  {
    var c := LittleEndian(Residue(s));
    [FromOctet(c[0]), FromOctet(c[1])]
  }

  /** The request without its checksum. */
  function Body(addr: byte, cmd: byte, reg: nat, count: nat, data: Option<seq<byte>>): seq<byte>
    requires data.Some? ==> |data.value| < 256
  {
    [addr, cmd] + BigEndianWord(reg) + BigEndianWord(count)
    + match data case None => [] case Some(d) => [|d|] + d
  }

  lemma TailOctets(s: seq<byte>)
    ensures Octets(CrcBytes(s)) == LittleEndian(Residue(s))
  {
    hide LittleEndian;
    var c := LittleEndian(Residue(s));
    OctetRoundTrip(c[0]);
    OctetRoundTrip(c[1]);
  }

  /** A message and two bytes have residue zero exactly when the two are its checksum. */
  lemma ResidueZeroExactly(s: seq<byte>, tail: seq<byte>)
    requires |tail| == 2
    ensures Residue(s + tail) == 0 <==> tail == CrcBytes(s)
  {
    hide Iterate, LittleEndian, CrcBytes;
    assert Octets(s + tail) == Octets(s) + Octets(tail);
    TailOctets(s);
    ResidueZero(Octets(s), Octets(tail));
    if Octets(tail) == Octets(CrcBytes(s)) {
      OctetsInjective(tail, CrcBytes(s));
    }
  }

  /** `BuildPacket` in the memory of the struct; the caller's data must leave room for the checksum. */
  method BuildPacket(mem: array<byte>, addr: byte, cmd: byte, reg: nat, count: nat, data: Option<seq<byte>>)
    returns (n: nat)
    requires mem.Length == STRUCT_SIZE && reg < 0x10000 && count < 0x10000
    requires data.Some? ==> |data.value| <= STRUCT_SIZE - 9
    modifies mem
    ensures n <= STRUCT_SIZE
    ensures n == (match data case None => 8 case Some(d) => 9 + |d|)
    ensures mem[0] == addr && mem[1] == cmd
    ensures mem[2] as int * 256 + mem[3] == reg && mem[4] as int * 256 + mem[5] == count
    ensures data.Some? ==> mem[6] == |data.value| && mem[7..7 + |data.value|] == data.value
    ensures mem[n - 2..n] == CrcBytes(mem[..n - 2])
    ensures Residue(mem[..n]) == 0
  {
    hide Iterate, LittleEndian, Residue, CrcBytes, FromOctet, Body;
    ghost var body := Body(addr, cmd, reg, count, data);
    n := WriteBody(mem, addr, cmd, reg, count, data);
    var crc := CheckSum(mem[..], n);
    assert mem[..][..n] == body;
    var swapped := LittleEndian(crc);
    CrcBytesAre(body);
    mem[n], mem[n + 1] := FromOctet(swapped[0]), FromOctet(swapped[1]);
    assert mem[..n] == body;
    assert mem[..n + 2] == body + CrcBytes(body);
    ResidueZeroExactly(body, CrcBytes(body));
    BodyRead(mem[..n], addr, cmd, reg, count, data);
    n := n + 2;
    assert mem[..n - 2] == body;
  }

  /** A server's reading of the body of a request. */
  lemma BodyRead(s: seq<byte>, addr: byte, cmd: byte, reg: nat, count: nat, data: Option<seq<byte>>)
    requires reg < 0x10000 && count < 0x10000 && (data.Some? ==> |data.value| < 256)
    requires s == Body(addr, cmd, reg, count, data)
    ensures |s| == (match data case None => 6 case Some(d) => 7 + |d|)
    ensures s[0] == addr && s[1] == cmd
    ensures s[2] as int * 256 + s[3] == reg && s[4] as int * 256 + s[5] == count
    ensures data.Some? ==> s[6] == |data.value| && s[7..7 + |data.value|] == data.value
  {
  }

  lemma CrcBytesAre(s: seq<byte>)
    ensures var c := LittleEndian(Residue(s)); CrcBytes(s) == [FromOctet(c[0]), FromOctet(c[1])]
  {
  }

  /** The part of `BuildPacket` before the checksum. */
  method WriteBody(mem: array<byte>, addr: byte, cmd: byte, reg: nat, count: nat, data: Option<seq<byte>>)
    returns (n: nat)
    requires mem.Length == STRUCT_SIZE && reg < 0x10000 && count < 0x10000
    requires data.Some? ==> |data.value| <= STRUCT_SIZE - 9
    modifies mem
    ensures n <= STRUCT_SIZE - 2 && mem[..n] == Body(addr, cmd, reg, count, data)
  {
    mem[0], mem[1] := addr, cmd;
    mem[2], mem[3] := Low(reg / 256), Low(reg);
    mem[4], mem[5] := Low(count / 256), Low(count);
    n := 6;
    if data.Some? {
      mem[6] := |data.value|;
      forall i | 0 <= i < |data.value| {
        mem[7 + i] := data.value[i];
      }
      n := n + (|data.value| + 1);
    }
  }

  /** `CheckSUM` of the first `n` bytes. */
  method CheckSum(s: seq<byte>, n: nat) returns (crc: word)
    requires n <= |s|
    ensures crc == Residue(s[..n])
  {
    hide Iterate;
    crc := Crc16(0xFFFF, Octets(s), n);
    assert Octets(s)[..n] == Octets(s[..n]);
  }

  /** `GetPacketLen`; the source aborts on other commands. */
  function PacketLen(s: seq<byte>): nat
    requires |s| >= PACKET_MINLEN && s[1] in {READ, WRITE}
  {
    if s[1] == WRITE then 8 else s[2] as int + 5
  }

  /** `GetData` and `GetDataLen` together: where the checksum of a reply stands. */
  function ChecksumAt(s: seq<byte>): nat
    requires |s| >= PACKET_MINLEN && s[1] in {READ, WRITE}
  {
    if s[1] == WRITE then 6 + 0 else 3 + s[2] as int
  }

  datatype Verdict = NeedMore | Ready | Broken

  /** `PacketVaild`: a complete reply is taken exactly when its residue is zero. */
  method PacketVaild(b: Buffer) returns (v: Verdict)
    requires b.Valid()
    requires |b.Contents()| >= PACKET_MINLEN ==> b.Contents()[1] in {READ, WRITE}
    ensures var s := b.Contents();
      && (v == NeedMore <==> |s| < 6 || |s| < PacketLen(s))
      && (v != NeedMore ==> (v == Ready <==> Residue(s[..PacketLen(s)]) == 0))
  {
    hide Iterate, Residue, WordAt;
    var s := b.Contents();
    if |s| > 0 {
      if |s| >= PACKET_MINLEN && |s| >= PacketLen(s) {
        var n, at := PacketLen(s), ChecksumAt(s);
        var received := WordAt(s[at], s[at + 1]);
        var calculated := CheckSum(s, n - 2);
        ComparisonExact(s, n);
        if received == calculated {
          return Ready;
        }
        return Broken;
      } else {
        return NeedMore;
      }
    } else {
      return NeedMore;
    }
  }

  /** A reply to a read request: address, command, count byte, that many bytes, checksum. */
  lemma ReadReplyTaken(addr: byte, data: seq<byte>, behind: seq<byte>)
    requires 1 <= |data| < 256
    ensures var body := [addr, 0x03, |data|] + data;
      var s := body + CrcBytes(body) + behind;
      PacketLen(s) == |data| + 5 && Residue(s[..PacketLen(s)]) == 0
  {
    hide Residue, CrcBytes;
    var body := [addr, 0x03, |data|] + data;
    var s := body + CrcBytes(body) + behind;
    ResidueZeroExactly(body, CrcBytes(body));
    assert s[..|data| + 5] == body + CrcBytes(body);
  }

  /** A reply to a write request: address, command, register and count, checksum. */
  lemma WriteReplyTaken(addr: byte, fields: seq<byte>, behind: seq<byte>)
    requires |fields| == 4
    ensures var body := [addr, 0x10] + fields;
      var s := body + CrcBytes(body) + behind;
      PacketLen(s) == 8 && Residue(s[..8]) == 0
  {
    hide Residue, CrcBytes;
    var body := [addr, 0x10] + fields;
    var s := body + CrcBytes(body) + behind;
    ResidueZeroExactly(body, CrcBytes(body));
    assert s[..8] == body + CrcBytes(body);
  }

  function Join(lo: octet, hi: octet): word {
    (lo as word) | ((hi as word) << 8)
  }

  /** A little-endian word read from the line. */
  function WordAt(lo: byte, hi: byte): word {
    Join(ToOctet(lo), ToOctet(hi))
  }

  lemma JoinedParts(lo: octet, hi: octet)
    ensures (Join(lo, hi) & 0xff) as octet == lo
    ensures (Join(lo, hi) >> 8) as octet == hi
  {
  }

  lemma PartsJoined(c: word)
    ensures Join((c & 0xff) as octet, (c >> 8) as octet) == c
  {
  }

  lemma WordHalves(lo: octet, hi: octet, c: word)
    ensures Join(lo, hi) == c <==> [lo, hi] == LittleEndian(c)
  {
    hide Join;
    JoinedParts(lo, hi);
    PartsJoined(c);
  }

  lemma WordIsChecksum(lo: byte, hi: byte, s: seq<byte>)
    ensures WordAt(lo, hi) == Residue(s) <==> [lo, hi] == CrcBytes(s)
  {
    hide Iterate, LittleEndian, CrcBytes, Residue, Join, ToOctet;
    WordHalves(ToOctet(lo), ToOctet(hi), Residue(s));
    TailOctets(s);
    assert Octets([lo, hi]) == [ToOctet(lo), ToOctet(hi)];
    if Octets([lo, hi]) == Octets(CrcBytes(s)) {
      OctetsInjective([lo, hi], CrcBytes(s));
    }
  }

  /** Comparing the stored checksum with the computed one is asking for residue zero. */
  lemma ComparisonExact(s: seq<byte>, n: nat)
    requires 2 <= n <= |s|
    ensures WordAt(s[n - 2], s[n - 1]) == Residue(s[..n - 2]) <==> Residue(s[..n]) == 0
  {
    hide Iterate, Residue, WordAt, CrcBytes;
    WordIsChecksum(s[n - 2], s[n - 1], s[..n - 2]);
    ResidueZeroExactly(s[..n - 2], [s[n - 2], s[n - 1]]);
    assert s[..n] == s[..n - 2] + [s[n - 2], s[n - 1]];
  }

  /** A frame damaged in one byte or two adjacent ones never has residue zero. */
  lemma DamagedFrameRejected(f: seq<byte>, got: seq<byte>, j: nat)
    requires Residue(f) == 0
    requires |f| == |got| && f != got
    requires forall i | 0 <= i < |f| && i != j && i != j + 1 :: f[i] == got[i]
    ensures Residue(got) != 0
  {
    hide Iterate, MODBUS;
    if Octets(f) == Octets(got) {
      OctetsInjective(f, got);
    }
    assert forall i | 0 <= i < |f| && i != j && i != j + 1 :: Octets(f)[i] == Octets(got)[i];
    ModbusSound();
    DamageDetected(MODBUS, 0xFFFF, Octets(f), Octets(got), j);
  }

  /** Nor does one with an odd number of flipped bits. */
  lemma OddDamageRejected(f: seq<byte>, got: seq<byte>)
    requires Residue(f) == 0
    requires |f| == |got| && CrcParity.FlippedBits(Octets(f), Octets(got)) % 2 == 1
    ensures Residue(got) != 0
  {
    hide Iterate, Code.Remainder, MODBUS, CrcParity.KeepsParity, CrcParity.FlippedBits;
    CrcParity.ModbusKeepsParity();
    CrcParity.OddDamageDetected(MODBUS, 0xFFFF, Octets(f), Octets(got));
  }

  /** Nor does one damaged within sixteen consecutive bits. */
  lemma BurstRejected(f: seq<byte>, got: seq<byte>, p: nat)
    requires Residue(f) == 0 && CrcBurst.BurstAt(CrcBurst.MODBUS, Octets(f), Octets(got), p)
    ensures Residue(got) != 0
  {
    hide Iterate, Code.Remainder, MODBUS, CrcBurst.MODBUS, CrcBurst.BurstAt;
    CrcBurst.ModbusBurst(0xFFFF, Octets(f), Octets(got), p);
  }
}
