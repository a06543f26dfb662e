/** CRC-CCITT: the bitwise loop of the YMODEM sender and the table-driven Python module. */
module CrcCcitt {
  import opened Bytes
  import opened CrcTheory

  /** One bit of the division by 0x1021, most significant bit first. */
  function Shift(c: word): word {
    if c & 0x8000 != 0 then (c << 1) ^ 0x1021 else c << 1
  }

  function Mix(b: octet): word {
    (b as word) << 8
  }

  const CCITT := Code(Shift, Mix)

  /** `crc16` of ymodem.c: the first `count` bytes of `buf`, bit by bit. */
  method Crc16(buf: seq<octet>, count: nat) returns (crc: word)
    requires count <= |buf|
    ensures crc == CCITT.Remainder(0, buf[..count])
  {
    hide Shift, Mix, Xor;
    crc := 0;
    var k := 0;
    while k < count
      invariant k <= count
      invariant crc == CCITT.Remainder(0, buf[..k])
    {
      MixedIn(crc, buf[k]);
      crc := crc ^ ((buf[k] as word) << 8);
      ghost var mixed := crc;
      for i := 0 to 8
        invariant crc == Iterate(Shift, i, mixed)
      {
        Shifted(crc);
        if crc & 0x8000 != 0 {
          crc := (crc << 1) ^ 0x1021;
        } else {
          crc := crc << 1;
        }
      }
      assert buf[..k + 1][..k] == buf[..k];
      k := k + 1;
    }
  }

  lemma MixedIn(c: word, b: octet)
    ensures Mix(b) == (b as word) << 8
    ensures Xor(c, CCITT.mix(b)) == c ^ ((b as word) << 8)
  {
  }

  lemma Shifted(c: word)
    ensures c & 0x8000 != 0 ==> Shift(c) == (c << 1) ^ 0x1021
    ensures c & 0x8000 == 0 ==> Shift(c) == c << 1
  {
  }

  // ----- the code is sound -----

  lemma TopBit(c: word, d: word)
    ensures ((c ^ d) & 0x8000 == 0) <==> ((c & 0x8000 == 0) <==> (d & 0x8000 == 0))
  {
  }

  lemma DoubledXor(c: word, d: word)
    ensures (c ^ d) << 1 == (c << 1) ^ (d << 1)
  {
  }

  lemma XorWithConstant(a: word, b: word, k: word)
    ensures (a ^ k) ^ b == (a ^ b) ^ k
    ensures a ^ (b ^ k) == (a ^ b) ^ k
    ensures (a ^ k) ^ (b ^ k) == a ^ b
  {
  }

  lemma ShiftLinear(c: word, d: word)
    ensures Shift(Xor(c, d)) == Xor(Shift(c), Shift(d))
  {
    TopBit(c, d);
    DoubledXor(c, d);
    XorWithConstant(c << 1, d << 1, 0x1021);
  }

  lemma ShiftInjective(c: word, d: word)
    requires Shift(c) == Shift(d)
    ensures c == d
  {
    hide Shift;
    Shifted(c);
    Shifted(d);
    LowBitTells(c, d);
    LowBitTells(d, c);
    ConstantDrops(c << 1, d << 1, 0x1021);
    SameShift(c, d);
  }

  lemma ConstantDrops(a: word, b: word, k: word)
    ensures a ^ k == b ^ k ==> a == b
  {
  }

  lemma LowBitTells(c: word, d: word)
    ensures ((c << 1) ^ 0x1021) != d << 1
  {
  }

  lemma SameShift(c: word, d: word)
    ensures (c & 0x8000 == 0 <==> d & 0x8000 == 0) && c << 1 == d << 1 ==> c == d
  {
  }

  /** Eight shifts written out, for arguments about concrete bit patterns. */
  lemma ShiftEight(c: word)
    ensures CCITT.Eight(c) == Shift(Shift(Shift(Shift(Shift(Shift(Shift(Shift(c))))))))
  {
    hide Shift;
    assert Iterate(Shift, 0, c) == c;
    assert Iterate(Shift, 1, c) == Shift(c);
    assert Iterate(Shift, 2, c) == Shift(Shift(c));
    assert Iterate(Shift, 3, c) == Shift(Iterate(Shift, 2, c));
    assert Iterate(Shift, 4, c) == Shift(Iterate(Shift, 3, c));
    assert Iterate(Shift, 5, c) == Shift(Iterate(Shift, 4, c));
    assert Iterate(Shift, 6, c) == Shift(Iterate(Shift, 5, c));
    assert Iterate(Shift, 7, c) == Shift(Iterate(Shift, 6, c));
  }

  /** A non-zero byte always leaves a mark in the low half of the remainder. */
  lemma LowHalfMarked(a: octet, b: octet)
    requires CCITT.Eight(Mix(a)) == Mix(b)
    ensures a == 0
  {
    ShiftEight(Mix(a));
  }

  lemma MixFacts(a: octet, b: octet)
    ensures Mix(a ^ b) == Xor(Mix(a), Mix(b))
    ensures Mix(a) == Mix(b) ==> a == b
  {
    assert (((a ^ b) as word) << 8) == ((a as word) << 8) ^ ((b as word) << 8);
  }

  lemma CcittSound()
    ensures CCITT.Sound()
  {
    hide Shift, Mix, Xor;
    forall c, d ensures Shift(Xor(c, d)) == Xor(Shift(c), Shift(d)) { ShiftLinear(c, d); }
    forall c, d | Shift(c) == Shift(d) ensures c == d { ShiftInjective(c, d); }
    forall a, b ensures Mix(a ^ b) == Xor(Mix(a), Mix(b)) { MixFacts(a, b); }
    forall a, b | Mix(a) == Mix(b) ensures a == b { MixFacts(a, b); }
    forall a, b | CCITT.Eight(Mix(a)) == Mix(b) ensures a == 0 { LowHalfMarked(a, b); }
  }

  // ----- a message followed by its own remainder -----

  /** The two bytes sent behind a message, high byte first. */
  function BigEndian(c: word): (s: seq<octet>)
    ensures |s| == 2
  {
    [(c >> 8) as octet, (c & 0xff) as octet]
  }

  /** A low half moves up unchanged: eight shifts meet no top bit. */
  lemma LowByteMovesUp(low: word)
    requires low < 256
    ensures CCITT.Eight(low) == low << 8
  {
    ShiftEight(low);
  }

  lemma HighByteCancels(c: word)
    ensures Xor(c, Mix((c >> 8) as octet)) == c & 0xff
  {
  }

  lemma LowByteCancels(c: word)
    ensures Xor((c & 0xff) << 8, Mix((c & 0xff) as octet)) == 0
  {
  }

  lemma OwnTailCancels(c: word)
    ensures CCITT.Step(CCITT.Step(c, BigEndian(c)[0]), BigEndian(c)[1]) == 0
  {
    hide Shift, Mix, Xor, Iterate;
    HighByteCancels(c);
    assert c & 0xff < 256;
    LowByteMovesUp(c & 0xff);
    LowByteCancels(c);
    LowByteMovesUp(0);
  }

  /** A message and two bytes leave remainder zero exactly when the bytes are its own remainder. */
  lemma ResidueZero(m: seq<octet>, tail: seq<octet>)
    requires |tail| == 2
    ensures CCITT.Remainder(0, m + tail) == 0 <==> tail == BigEndian(CCITT.Remainder(0, m))
  {
    CcittSound();
    OwnTailCancels(CCITT.Remainder(0, m));
    ResidueUnique(CCITT, 0, m, BigEndian(CCITT.Remainder(0, m)), tail);
  }

  /** One damaged byte, or two adjacent ones, never go unnoticed by the two-byte check. */
  lemma FrameDamageDetected(m: seq<octet>, tail: seq<octet>, got: seq<octet>, j: nat)
    requires tail == BigEndian(CCITT.Remainder(0, m))
    requires DamagedAt(m + tail, got, j)
    ensures CCITT.Remainder(0, got) != 0
  {
    CcittSound();
    ResidueZero(m, tail);
    DamageDetected(CCITT, 0, m + tail, got, j);
  }

  // ----- the table-driven form -----

  /** What entry `i` of the generated table holds. */
  function TableEntry(i: octet): word {
    CCITT.Eight(Mix(i))
  }

  lemma SplitWord(c: word, b: octet)
    ensures Xor(c, Mix(b)) == Xor(c & 0xff, Mix(((c >> 8) as octet) ^ b))
    ensures (c & 0xff) << 8 == c << 8
    ensures c & 0xff < 256
  {
    assert c ^ ((b as word) << 8) == (c & 0xff) ^ (((((c >> 8) as octet) ^ b) as word) << 8);
  }

  /** One table look-up does the work of eight shifts. */
  lemma TableStep(c: word, b: octet)
    ensures CCITT.Step(c, b) == Xor(c << 8, TableEntry(((c >> 8) as octet) ^ b))
  {
    hide Shift, Mix, Xor, Iterate;
    var i := ((c >> 8) as octet) ^ b;
    SplitWord(c, b);
    CcittSound();
    IterateLinear(CCITT, 8, c & 0xff, Mix(i));
    LowByteMovesUp(c & 0xff);
  }

  function Double(c: word): word {
    c << 1
  }

  lemma DividendUsedUp(i: octet)
    ensures Iterate(Double, 8, Mix(i)) == 0
  {
    var c := Mix(i);
    assert Iterate(Double, 0, c) == c;
    assert Iterate(Double, 1, c) == c << 1;
    assert Iterate(Double, 2, c) == c << 2;
    assert Iterate(Double, 3, c) == c << 3;
    assert Iterate(Double, 4, c) == c << 4;
    assert Iterate(Double, 5, c) == c << 5;
    assert Iterate(Double, 6, c) == c << 6;
    assert Iterate(Double, 7, c) == c << 7;
  }

  /** One pass of the generator divides the sum of dividend `c` and remainder `crc`. */
  lemma DividendShift(crc: word, c: word)
    ensures (crc ^ c) & 0x8000 != 0 ==> Xor((crc << 1) ^ 0x1021, c << 1) == Shift(Xor(crc, c))
    ensures (crc ^ c) & 0x8000 == 0 ==> Xor(crc << 1, c << 1) == Shift(Xor(crc, c))
  {
    DoubledXor(crc, c);
    XorWithConstant(crc << 1, c << 1, 0x1021);
  }

  lemma XorZero(c: word)
    ensures Xor(0, c) == c && Xor(c, 0) == c
  {
  }

  lemma FullyDivided(crc: word, i: octet)
    requires Xor(crc, 0) == Iterate(Shift, 8, Mix(i))
    ensures crc == TableEntry(i)
  {
    hide Shift, Mix, Xor, Iterate;
    XorZero(crc);
  }

  /** class CRCCCITT: the table is filled when the object is made. */
  class CrcCcittTable {
    var table: seq<word>
    const start: word

    ghost predicate Valid()
      reads this
    {
      |table| == 256 && forall k: nat | k < 256 :: table[k] == TableEntry(ToOctet(k))
    }

    constructor (start: word)
      ensures Valid() && this.start == start
    {
      this.start := start;
      table := [];
      new;
      InitTable();
    }

    method InitTable()
      requires table == []
      modifies this`table
      ensures Valid()
    {
      hide Shift, Mix, Xor, TableEntry;
      for i := 0 to 256
        invariant |table| == i
        invariant forall k: nat | k < i :: table[k] == TableEntry(ToOctet(k))
      {
        var crc := GenerateEntry(ToOctet(i));
        table := table + [crc];
      }
    }

    /** The inner loop of the table generation, for row `i`. */
    static method GenerateEntry(i: octet) returns (crc: word)
      ensures crc == TableEntry(i)
    {
      hide Shift, Mix, Xor, Iterate, TableEntry, Double;
      crc := 0;
      var c: word := (i as word) << 8;
      MixedIn(0, i);
      XorZero(c);
      IterateMore(Shift, 0, c);
      IterateMore(Double, 0, c);
      for j := 0 to 8
        invariant Xor(crc, c) == Iterate(Shift, j, Mix(i))
        invariant c == Iterate(Double, j, Mix(i))
      {
        crc, c := DivideBit(crc, c);
        IterateMore(Double, j, Mix(i));
        IterateMore(Shift, j, Mix(i));
      }
      DividendUsedUp(i);
      FullyDivided(crc, i);
    }

    /** One pass through that loop. */
    static method DivideBit(crc0: word, c0: word) returns (crc: word, c: word)
      ensures Xor(crc, c) == Shift(Xor(crc0, c0))
      ensures c == Double(c0)
    {
      hide Shift, Xor;
      DividendShift(crc0, c0);
      if (crc0 ^ c0) & 0x8000 != 0 {
        crc := (crc0 << 1) ^ 0x1021;
      } else {
        crc := crc0 << 1;
      }
      c := c0 << 1;
    }

    /** `calculate`: the empty string is answered with 0 whatever the starting value. */
    method Calculate(s: seq<octet>) returns (crc: word)
      requires Valid()
      ensures s == [] ==> crc == 0
      ensures s != [] ==> crc == CCITT.Remainder(start, s)
    {
      if s == [] {
        return 0;
      }
      crc := start;
      for k := 0 to |s|
        invariant crc == CCITT.Remainder(start, s[..k])
      {
        assert s[..k + 1][..k] == s[..k];
        crc := LookUp(crc, s[k]);
      }
      assert s[..|s|] == s;
    }

    /** One pass through the loop of `calculate`. */
    method LookUp(crc: word, b: octet) returns (r: word)
      requires Valid()
      ensures r == CCITT.Step(crc, b)
    {
      hide Shift, Mix, Iterate, TableEntry;
      TableStep(crc, b);
      var tmp := ((crc >> 8) as octet) ^ b;
      OctetRoundTrip(tmp);
      r := (crc << 8) ^ table[FromOctet(tmp)];
    }
  }

  /** `CRCCCITT('XModem').calculate` gives what `crc16` of ymodem.c gives, for every input. */
  method BothWays(t: CrcCcittTable, s: seq<octet>) returns (bitwise: word, driven: word)
    requires t.Valid() && t.start == 0
    ensures bitwise == driven
  {
    hide Shift, Mix, Xor, Iterate;
    bitwise := Crc16(s, |s|);
    assert s[..|s|] == s;
    driven := t.Calculate(s);
  }

  /** Messages that differ in one byte or two adjacent ones have different checksums. */
  lemma MessagesTold(c: word, m: seq<octet>, m': seq<octet>, j: nat)
    requires DamagedAt(m, m', j)
    ensures CCITT.Remainder(c, m) != CCITT.Remainder(c, m')
  {
    CcittSound();
    DamageDetected(CCITT, c, m, m', j);
  }

  lemma OneStep(c: word, b: octet)
    ensures CCITT.Step(c, b) == Shift(Shift(Shift(Shift(Shift(Shift(Shift(Shift(c ^ Mix(b)))))))))
  {
    ShiftEight(c ^ Mix(b));
  }

  lemma FirstThreeSteps()
    ensures CCITT.Remainder(0x0000, [0x31, 0x32, 0x33]) == 0x9752
  {
    ThreeBytes(CCITT, 0x0000, 0x31, 0x32, 0x33);
    OneStep(0x0000, 0x31);
    OneStep(0x2672, 0x32);
    OneStep(0x20b5, 0x33);
    assert CCITT.Step(0x0000, 0x31) == 0x2672;
    assert CCITT.Step(0x2672, 0x32) == 0x20b5;
    assert CCITT.Step(0x20b5, 0x33) == 0x9752;
    hide Iterate, Code.Remainder;
  }

  lemma MiddleThreeSteps()
    ensures CCITT.Remainder(0x9752, [0x34, 0x35, 0x36]) == 0x20e4
  {
    ThreeBytes(CCITT, 0x9752, 0x34, 0x35, 0x36);
    OneStep(0x9752, 0x34);
    OneStep(0xd789, 0x35);
    OneStep(0x546c, 0x36);
    assert CCITT.Step(0x9752, 0x34) == 0xd789;
    assert CCITT.Step(0xd789, 0x35) == 0x546c;
    assert CCITT.Step(0x546c, 0x36) == 0x20e4;
    hide Iterate, Code.Remainder;
  }

  lemma LastThreeSteps()
    ensures CCITT.Remainder(0x20e4, [0x37, 0x38, 0x39]) == 0x31c3
  {
    ThreeBytes(CCITT, 0x20e4, 0x37, 0x38, 0x39);
    OneStep(0x20e4, 0x37);
    OneStep(0x86d6, 0x38);
    OneStep(0x9015, 0x39);
    assert CCITT.Step(0x20e4, 0x37) == 0x86d6;
    assert CCITT.Step(0x86d6, 0x38) == 0x9015;
    assert CCITT.Step(0x9015, 0x39) == 0x31c3;
    hide Iterate, Code.Remainder;
  }

  /** The published check value of this code: its remainder of the nine characters 1 to 9. */
  lemma CheckValue()
    ensures CCITT.Remainder(0x0000, [0x31, 0x32, 0x33, 0x34, 0x35, 0x36, 0x37, 0x38, 0x39]) == 0x31c3
  {
    hide Shift, Mix, Iterate, Code.Step, Code.Remainder, CCITT;
    var first, middle, last: seq<octet> := [0x31, 0x32, 0x33], [0x34, 0x35, 0x36], [0x37, 0x38, 0x39];
    FirstThreeSteps();
    MiddleThreeSteps();
    LastThreeSteps();
    RemainderConcat(CCITT, 0x0000, first, middle);
    RemainderConcat(CCITT, 0x0000, first + middle, last);
    assert first + middle + last == [0x31, 0x32, 0x33, 0x34, 0x35, 0x36, 0x37, 0x38, 0x39];
  }
}
