/** What the YMODEM sender puts on the line: 128-byte packets and the file name block. */
module YmodemFormat {
  import opened Bytes
  import CrcCcitt
  import CrcBurst
  import CrcParity
  import CrcTheory

  const PACKET_SIZE := 128
  const FILE_SIZE_LENGTH := 16
  const NAME_MAX := PACKET_SIZE - FILE_SIZE_LENGTH - 2
  const WORD_COUNT := 0x1_0000_0000

  const SOH: byte := 0x01
  const EOT: byte := 0x04
  const ZERO: byte := 0x30

  // ----- decimal numbers -----

  function Digits(n: nat): (s: seq<byte>)
    ensures s != []
    ensures forall d | d in s :: 0x30 <= d <= 0x39
  {
    if n < 10 then [ZERO + n] else Digits(n / 10) + [ZERO + n % 10]
  }

  predicate IsDigit(d: byte) {
    ZERO <= d <= ZERO + 9
  }

  /** Decimal reading of the digits at the front of `s`, as a receiver does it. */
  function ParseDigits(s: seq<byte>, value: nat): nat {
    if s == [] || !IsDigit(s[0]) then value else ParseDigits(s[1..], 10 * value + (s[0] - ZERO))
  }

  function Pow10(n: nat): (p: nat)
    ensures p >= 1
  {
    if n == 0 then 1 else 10 * Pow10(n - 1)
  }

  /**
   `u32_to_str`: digits are written from the back of an eleven-byte buffer, and the ten slots
   before its terminator are enough for every 32-bit value.
   */
  method U32ToStr(val0: nat) returns (s: seq<byte>)
    requires val0 < WORD_COUNT
    ensures s == Digits(val0) && |s| <= 10
  {
    if val0 == 0 {
      return [ZERO];
    }
    hide Digits, Pow10;
    TenDigits();
    var numStr := new byte[11];
    var pos: int := 10;
    numStr[10] := 0;
    var val: nat := val0;
    ghost var tail: seq<byte> := [];
    while val != 0 && pos > 0
      invariant 0 <= pos <= 10 && val < Pow10(pos)
      invariant tail == numStr[pos..10] && DigitsOf(val) + tail == Digits(val0)
      decreases val
    {
      LastDigit(val, pos, tail);
      pos := pos - 1;
      numStr[pos] := val % 10 + ZERO;
      tail := [ZERO + val % 10] + tail;
      val := val / 10;
    }
    NoDigits();
    s := numStr[pos..10];
  }

  function DigitsOf(n: nat): seq<byte> {
    if n == 0 then [] else Digits(n)
  }

  lemma LastDigit(val: nat, pos: nat, tail: seq<byte>)
    requires val != 0 && pos > 0 && val < Pow10(pos)
    ensures val / 10 < Pow10(pos - 1)
    ensures DigitsOf(val) + tail == DigitsOf(val / 10) + ([ZERO + val % 10] + tail)
  {
    assert Digits(val) == DigitsOf(val / 10) + [ZERO + val % 10];
  }

  lemma NoDigits()
    ensures Pow10(0) == 1
    ensures DigitsOf(0) == []
  {
  }

  lemma TenDigits()
    ensures WORD_COUNT <= Pow10(10)
  {
    assert Pow10(5) == 100000;
    assert Pow10(7) == 10000000;
    assert Pow10(9) == 1000000000;
  }

  lemma {:induction false} DigitsLength(n: nat, k: nat)
    requires k > 0 && n < Pow10(k)
    ensures |Digits(n)| <= k
  {
    if n >= 10 {
      DigitsLength(n / 10, k - 1);
    }
  }

  /** Reading the digits of `n`, whatever non-digit follows, continues any value read before. */
  lemma {:induction false} DigitsParsed(n: nat, rest: seq<byte>)
    requires rest != [] && !IsDigit(rest[0])
    ensures ParseDigits(Digits(n) + rest, 0) == n
  {
    ParseAppended(n, rest);
    assert ParseDigits(rest, n) == n;
  }

  /** Reading digits behind which more may follow. */
  lemma {:induction false} ParseAppended(n: nat, rest: seq<byte>)
    ensures ParseDigits(Digits(n) + rest, 0) == ParseDigits(rest, n)
  {
    if n < 10 {
      assert (Digits(n) + rest)[1..] == rest;
    } else {
      var d := [ZERO + n % 10];
      ParseAppended(n / 10, d + rest);
      assert Digits(n) + rest == Digits(n / 10) + (d + rest);
      assert (d + rest)[1..] == rest;
    }
  }

  // ----- packets -----

  /** The checksum as two bytes, high byte first. */
  function CrcBytes(block: seq<byte>): (s: seq<byte>)
    ensures |s| == 2
  {
    var c := CrcCcitt.BigEndian(CrcCcitt.CCITT.Remainder(0, Octets(block)));
    [FromOctet(c[0]), FromOctet(c[1])]
  }

  /** `send_packet`: start byte, number, its complement, data, checksum. */
  function PacketBytes(block: seq<byte>, number: nat): (s: seq<byte>)
    requires |block| == PACKET_SIZE
    ensures |s| == PACKET_SIZE + 5
  {
    [SOH, Low(number), 255 - Low(number)] + block + CrcBytes(block)
  }

  /** What a receiver accepts as a packet. */
  predicate Intact(got: seq<byte>) {
    && |got| == PACKET_SIZE + 5
    && got[0] == SOH
    && got[1] as int + got[2] as int == 255
    && CrcCcitt.CCITT.Remainder(0, Octets(got[3..])) == 0
  }

  function Payload(got: seq<byte>): (s: seq<byte>)
    requires |got| == PACKET_SIZE + 5
    ensures |s| == PACKET_SIZE
  {
    got[3..3 + PACKET_SIZE]
  }

  lemma OctetsConcat(s: seq<byte>, t: seq<byte>)
    ensures Octets(s + t) == Octets(s) + Octets(t)
  {
  }

  lemma TailOctets(block: seq<byte>)
    ensures Octets(CrcBytes(block)) == CrcCcitt.BigEndian(CrcCcitt.CCITT.Remainder(0, Octets(block)))
  {
    hide CrcCcitt.BigEndian;
    var c := CrcCcitt.BigEndian(CrcCcitt.CCITT.Remainder(0, Octets(block)));
    OctetRoundTrip(c[0]);
    OctetRoundTrip(c[1]);
  }

  lemma PacketIntact(block: seq<byte>, number: nat)
    requires |block| == PACKET_SIZE
    ensures var p := PacketBytes(block, number);
      Intact(p) && Payload(p) == block && p[1] == Low(number) && p[3..] == block + CrcBytes(block)
  {
    hide CrcTheory.Iterate, CrcCcitt.BigEndian, CrcBytes;
    var p := PacketBytes(block, number);
    assert p[3..] == block + CrcBytes(block);
    OctetsConcat(block, CrcBytes(block));
    TailOctets(block);
    CrcCcitt.ResidueZero(Octets(block), Octets(CrcBytes(block)));
  }

  /**
   Damage the line may do: to one byte anywhere, and in data and checksum to two adjacent bytes,
   to any bits among sixteen consecutive ones, or to an odd number of bits.
   */
  ghost predicate PacketDamage(sent: seq<byte>, got: seq<byte>) {
    && |sent| == |got| == PACKET_SIZE + 5
    && sent != got
    && (OddDamage(sent, got) || BurstDamage(sent, got) || exists j: nat :: DamageFrom(sent, got, j))
  }

  ghost predicate BurstDamage(sent: seq<byte>, got: seq<byte>)
    requires |sent| == |got| == PACKET_SIZE + 5
  {
    sent[..3] == got[..3]
    && exists p: nat :: CrcBurst.BurstAt(CrcBurst.CCITT, Octets(sent[3..]), Octets(got[3..]), p)
  }

  ghost predicate OddDamage(sent: seq<byte>, got: seq<byte>)
    requires |sent| == |got| == PACKET_SIZE + 5
  {
    sent[..3] == got[..3] && CrcParity.FlippedBits(Octets(sent[3..]), Octets(got[3..])) % 2 == 1
  }

  ghost predicate DamageFrom(sent: seq<byte>, got: seq<byte>, j: nat)
    requires |sent| == |got| == PACKET_SIZE + 5
  {
    && (forall i | 0 <= i < |sent| && i != j && i != j + 1 :: sent[i] == got[i])
    && (j < 3 ==> sent[j + 1] == got[j + 1])
  }

  lemma OddDamageRejected(sent: seq<byte>, got: seq<byte>)
    requires |sent| == |got| == PACKET_SIZE + 5
    requires Intact(sent) && OddDamage(sent, got)
    ensures !Intact(got)
  {
    hide CrcTheory.Iterate, CrcTheory.Code.Remainder, CrcParity.KeepsParity, CrcParity.FlippedBits, CrcCcitt.CCITT;
    CrcParity.CcittKeepsParity();
    CrcParity.OddDamageDetected(CrcCcitt.CCITT, 0, Octets(sent[3..]), Octets(got[3..]));
  }

  lemma BurstDamageRejected(sent: seq<byte>, got: seq<byte>)
    requires |sent| == |got| == PACKET_SIZE + 5
    requires Intact(sent) && BurstDamage(sent, got)
    ensures !Intact(got)
  {
    hide CrcTheory.Iterate, CrcTheory.Code.Remainder, CrcBurst.BurstAt, CrcBurst.CCITT, CrcCcitt.CCITT;
    var p: nat :| CrcBurst.BurstAt(CrcBurst.CCITT, Octets(sent[3..]), Octets(got[3..]), p);
    CrcBurst.CcittBurst(0, Octets(sent[3..]), Octets(got[3..]), p);
  }

  lemma LocalDamageRejected(block: seq<byte>, number: nat, got: seq<byte>, j: nat)
    requires |block| == PACKET_SIZE && |got| == PACKET_SIZE + 5
    requires PacketBytes(block, number) != got && DamageFrom(PacketBytes(block, number), got, j)
    ensures !Intact(got)
  {
    hide CrcTheory.Iterate, CrcCcitt.BigEndian, CrcBytes, CrcCcitt.CCITT;
    var sent := PacketBytes(block, number);
    PacketIntact(block, number);
    if j < 3 {
      assert sent[j] != got[j];
    } else {
      assert sent == sent[..3] + sent[3..] && got == got[..3] + got[3..];
      assert sent[..3] == got[..3];
      var m, m' := Octets(sent[3..]), Octets(got[3..]);
      if m == m' {
        OctetsInjective(sent[3..], got[3..]);
      }
      OctetsConcat(block, CrcBytes(block));
      TailOctets(block);
      assert forall i | 0 <= i < |m| && i != j - 3 && i != j - 2 :: m[i] == m'[i];
      CrcCcitt.FrameDamageDetected(Octets(block), Octets(CrcBytes(block)), m', j - 3);
    }
  }

  /** A receiver never takes a damaged packet for a good one. */
  lemma DamageRejected(block: seq<byte>, number: nat, got: seq<byte>)
    requires |block| == PACKET_SIZE
    requires PacketDamage(PacketBytes(block, number), got)
    ensures !Intact(got)
  {
    hide PacketBytes, Intact, OddDamage, BurstDamage, DamageFrom;
    var sent := PacketBytes(block, number);
    PacketIntact(block, number);
    if OddDamage(sent, got) {
      OddDamageRejected(sent, got);
    } else if BurstDamage(sent, got) {
      BurstDamageRejected(sent, got);
    } else {
      var j: nat :| DamageFrom(sent, got, j);
      LocalDamageRejected(block, number, got, j);
    }
  }

  // ----- the file name block -----

  /** A C string: no zero byte inside. */
  predicate CString(s: seq<byte>) {
    forall c | c in s :: c != 0
  }

  function Cut(name: seq<byte>): seq<byte> {
    if |name| <= NAME_MAX then name else name[..NAME_MAX]
  }

  /** Name, zero, decimal size, zeros; all zeros when there is no file. */
  function HeaderBlock(name: seq<byte>, size: nat): (block: seq<byte>)
    requires size < WORD_COUNT
    ensures |block| == PACKET_SIZE
  {
    TenDigits();
    DigitsLength(size, 10);
    var s := Cut(name) + [0] + Digits(size);
    s + Zeros(PACKET_SIZE - |s|)
  }

  /** `send_packet0` up to the call of `send_packet`: the null pointer gives the closing block. */
  method BuildHeader(name: Option<seq<byte>>, size: nat) returns (block: array<byte>)
    requires size < WORD_COUNT && (name.Some? ==> CString(name.value))
    ensures fresh(block) && block.Length == PACKET_SIZE
    ensures block[..] == match name case Some(s) => HeaderBlock(s, size) case None => Zeros(PACKET_SIZE)
  {
    hide Digits;
    block := new byte[PACKET_SIZE];
    var count := 0;
    if name.Some? {
      count := PutNameAndSize(block, name.value, size);
    }
    ghost var text := block[..count];
    ghost var used := count;
    while count < PACKET_SIZE
      invariant used <= count <= PACKET_SIZE
      invariant block[..count] == text + Zeros(count - used)
    {
      block[count] := 0;
      count := count + 1;
    }
    assert [] + Zeros(PACKET_SIZE) == Zeros(PACKET_SIZE);
  }

  /** The part of `send_packet0` for a named file. */
  method PutNameAndSize(block: array<byte>, s: seq<byte>, size: nat) returns (count: nat)
    requires block.Length == PACKET_SIZE && size < WORD_COUNT
    modifies block
    ensures count <= PACKET_SIZE && block[..count] == Cut(s) + [0] + Digits(size)
  {
    hide Digits;
    count := 0;
    while count < |s| && count < NAME_MAX
      invariant count <= |s| && count <= NAME_MAX && block[..count] == s[..count]
    {
      block[count] := s[count];
      count := count + 1;
    }
    assert s[..count] == Cut(s);
    block[count] := 0;
    count := count + 1;
    ghost var text := Cut(s) + [0];
    assert block[..count] == text;
    var num := U32ToStr(size);
    var k := 0;
    while k < |num|
      invariant k <= |num| && count == |text| + k
      invariant block[..count] == text + num[..k]
    {
      block[count] := num[k];
      count := count + 1;
      k := k + 1;
    }
    assert num[..k] == num;
  }

  /** The bytes before the first zero. */
  function Prefix(s: seq<byte>): (p: seq<byte>)
    ensures |p| <= |s|
  {
    if s == [] || s[0] == 0 then [] else [s[0]] + Prefix(s[1..])
  }

  /** A receiver's reading of block 0: a name and a size, or no file. */
  function DecodeHeader(block: seq<byte>): Option<(seq<byte>, nat)> {
    var name := Prefix(block);
    if name == [] || |name| == |block| then None
    else Some((name, ParseDigits(block[|name| + 1..], 0)))
  }

  lemma SliceIsCString(s: seq<byte>, i: nat, j: nat)
    requires CString(s) && i <= j <= |s|
    ensures CString(s[i..j])
  {
    forall c | c in s[i..j] ensures c != 0 {
      assert c in s;
    }
  }

  lemma {:induction false} PrefixFound(name: seq<byte>, rest: seq<byte>)
    requires CString(name)
    ensures Prefix(name + [0] + rest) == name
  {
    var s := name + [0] + rest;
    if name != [] {
      assert name[0] in name;
      assert s[1..] == name[1..] + [0] + rest;
      SliceIsCString(name, 1, |name|);
      assert name[1..|name|] == name[1..];
      PrefixFound(name[1..], rest);
      assert name == [name[0]] + name[1..];
    }
  }

  /** Block 0 reads back as the name, cut to 110 bytes, and the size. */
  lemma HeaderReadsBack(name: seq<byte>, size: nat)
    requires name != [] && CString(name) && size < WORD_COUNT
    ensures DecodeHeader(HeaderBlock(name, size)) == Some((Cut(name), size))
    ensures HeaderBlock(name, size) != Zeros(PACKET_SIZE)
  {
    var cut := Cut(name);
    TenDigits();
    DigitsLength(size, 10);
    var zeros := Zeros(PACKET_SIZE - |cut + [0] + Digits(size)|);
    var block := HeaderBlock(name, size);
    assert block == cut + [0] + (Digits(size) + zeros);
    SliceIsCString(name, 0, |cut|);
    PrefixFound(cut, Digits(size) + zeros);
    assert block[|cut| + 1..] == Digits(size) + zeros;
    DigitsParsed(size, zeros);
    assert block[0] == name[0] && name[0] in name;
  }

  lemma NullBlockIsNoFile()
    ensures DecodeHeader(Zeros(PACKET_SIZE)) == None
  {
  }

  /** A name of at most 110 bytes arrives whole, a longer one as its first 110 bytes. */
  lemma NameKept(name: seq<byte>, size: nat)
    requires name != [] && CString(name) && size < WORD_COUNT
    ensures |name| <= 110 ==> DecodeHeader(HeaderBlock(name, size)) == Some((name, size))
    ensures |name| > 110 ==> DecodeHeader(HeaderBlock(name, size)) == Some((name[..110], size))
  {
    hide DecodeHeader, HeaderBlock;
    HeaderReadsBack(name, size);
  }

  /** Where a packet holds its number and its data, and that its two checksum bytes are the only fit ones. */
  lemma PacketLayout(block: seq<byte>, number: nat, tail: seq<byte>)
    requires |block| == 128 && |tail| == 2
    ensures var p := PacketBytes(block, number);
      && |p| == 133
      && p[0] == 0x01 && p[1] == number % 256 && p[1] + p[2] == 255 && p[3..131] == block
      && (tail == p[131..] <==> CrcCcitt.CCITT.Remainder(0, Octets(block + tail)) == 0)
  {
    hide CrcTheory.Iterate, CrcCcitt.BigEndian, CrcBytes, CrcCcitt.CCITT;
    var p := PacketBytes(block, number);
    assert p[3..131] == block && p[131..] == CrcBytes(block);
    OctetsConcat(block, tail);
    TailOctets(block);
    CrcCcitt.ResidueZero(Octets(block), Octets(tail));
    if Octets(tail) == Octets(CrcBytes(block)) {
      OctetsInjective(tail, CrcBytes(block));
    }
  }
}
