/** CRC-16 with the reflected polynomial 0xA001: the Modbus sensor link and CRC16.py. */
module CrcModbus {
  import opened Bytes
  import opened CrcTheory

  /** One bit of the division by 0xA001, least significant bit first. */
  function Shift(c: word): word {
    if c & 1 != 0 then (c >> 1) ^ 0xA001 else c >> 1
  }

  function Mix(b: octet): word {
    b as word
  }

  const MODBUS := Code(Shift, Mix)

  // ----- the code is sound -----

  lemma BottomBit(c: word, d: word)
    ensures ((c ^ d) & 1 == 0) <==> ((c & 1 == 0) <==> (d & 1 == 0))
  {
  }

  lemma HalvedXor(c: word, d: word)
    ensures (c ^ d) >> 1 == (c >> 1) ^ (d >> 1)
  {
  }

  lemma XorWithConstant(a: word, b: word, k: word)
    ensures (a ^ k) ^ b == (a ^ b) ^ k
    ensures a ^ (b ^ k) == (a ^ b) ^ k
    ensures (a ^ k) ^ (b ^ k) == a ^ b
    ensures a ^ k == b ^ k ==> a == b
  {
  }

  lemma ShiftLinear(c: word, d: word)
    ensures Shift(Xor(c, d)) == Xor(Shift(c), Shift(d))
  {
    BottomBit(c, d);
    HalvedXor(c, d);
    XorWithConstant(c >> 1, d >> 1, 0xA001);
  }

  lemma Shifted(c: word)
    ensures c & 1 != 0 ==> Shift(c) == (c >> 1) ^ 0xA001
    ensures c & 1 == 0 ==> Shift(c) == c >> 1
  {
  }

  lemma TopBitTells(c: word, d: word)
    ensures ((c >> 1) ^ 0xA001) != d >> 1
  {
  }

  lemma SameShift(c: word, d: word)
    ensures (c & 1 == 0 <==> d & 1 == 0) && c >> 1 == d >> 1 ==> c == d
  {
  }

  lemma ShiftInjective(c: word, d: word)
    requires Shift(c) == Shift(d)
    ensures c == d
  {
    hide Shift;
    Shifted(c);
    Shifted(d);
    TopBitTells(c, d);
    TopBitTells(d, c);
    XorWithConstant(c >> 1, d >> 1, 0xA001);
    SameShift(c, d);
  }

  /** Eight shifts written out, for arguments about concrete bit patterns. */
  lemma ShiftEight(c: word)
    ensures MODBUS.Eight(c) == Shift(Shift(Shift(Shift(Shift(Shift(Shift(Shift(c))))))))
  {
    hide Shift;
    assert Iterate(Shift, 0, c) == c;
    assert Iterate(Shift, 1, c) == Shift(c);
    assert Iterate(Shift, 2, c) == Shift(Shift(c));
    assert Iterate(Shift, 3, c) == Shift(Iterate(Shift, 2, c));
    assert Iterate(Shift, 4, c) == Shift(Iterate(Shift, 3, c));
    assert Iterate(Shift, 5, c) == Shift(Iterate(Shift, 4, c));
    assert Iterate(Shift, 6, c) == Shift(Iterate(Shift, 5, c));
    assert Iterate(Shift, 7, c) == Shift(Iterate(Shift, 6, c));
  }

  /** A non-zero byte always leaves a mark in the high half of the remainder. */
  lemma HighHalfMarked(a: octet, b: octet)
    requires MODBUS.Eight(Mix(a)) == Mix(b)
    ensures a == 0
  {
    ShiftEight(Mix(a));
  }

  lemma MixFacts(a: octet, b: octet)
    ensures Mix(a ^ b) == Xor(Mix(a), Mix(b))
    ensures Mix(a) == Mix(b) ==> a == b
  {
  }

  lemma ModbusSound()
    ensures MODBUS.Sound()
  {
    hide Shift, Mix, Xor;
    forall c, d ensures Shift(Xor(c, d)) == Xor(Shift(c), Shift(d)) { ShiftLinear(c, d); }
    forall c, d | Shift(c) == Shift(d) ensures c == d { ShiftInjective(c, d); }
    forall a, b ensures Mix(a ^ b) == Xor(Mix(a), Mix(b)) { MixFacts(a, b); }
    forall a, b | Mix(a) == Mix(b) ensures a == b { MixFacts(a, b); }
    forall a, b | MODBUS.Eight(Mix(a)) == Mix(b) ensures a == 0 { HighHalfMarked(a, b); }
  }

  // ----- a message followed by its own remainder -----

  /** The two bytes sent behind a message, low byte first. */
  function LittleEndian(c: word): (s: seq<octet>)
    ensures |s| == 2
  {
    [(c & 0xff) as octet, (c >> 8) as octet]
  }

  lemma LowByteCancels(c: word)
    ensures Xor(c, Mix((c & 0xff) as octet)) == (c >> 8) << 8
  {
  }

  lemma HighByteCancels(c: word)
    ensures Xor(c >> 8, Mix((c >> 8) as octet)) == 0
  {
  }

  /** A high half moves down unchanged: eight shifts meet no bottom bit. */
  lemma HighByteMovesDown(c: word)
    ensures MODBUS.Eight((c >> 8) << 8) == c >> 8
    ensures MODBUS.Eight(0) == 0
  {
    ShiftEight((c >> 8) << 8);
    ShiftEight(0);
  }

  lemma OwnTailCancels(c: word)
    ensures MODBUS.Step(MODBUS.Step(c, LittleEndian(c)[0]), LittleEndian(c)[1]) == 0
  {
    hide Shift, Mix, Xor, Iterate;
    LowByteCancels(c);
    HighByteCancels(c);
    HighByteMovesDown(c);
  }

  /** A message and two bytes leave remainder zero exactly when the bytes are its own remainder. */
  lemma ResidueZero(m: seq<octet>, tail: seq<octet>)
    requires |tail| == 2
    ensures MODBUS.Remainder(0xFFFF, m + tail) == 0
       <==> tail == LittleEndian(MODBUS.Remainder(0xFFFF, m))
  {
    ModbusSound();
    OwnTailCancels(MODBUS.Remainder(0xFFFF, m));
    ResidueUnique(MODBUS, 0xFFFF, m, LittleEndian(MODBUS.Remainder(0xFFFF, m)), tail);
  }

  // ----- the table-driven form -----

  /** What entry `i` of the table holds. */
  function TableEntry(i: octet): word {
    MODBUS.Eight(Mix(i))
  }

  lemma SplitWord(c: word, b: octet)
    ensures Xor(c, Mix(b)) == Xor((c >> 8) << 8, Mix(((c & 0xff) as octet) ^ b))
  {
    assert c ^ (b as word) == ((c >> 8) << 8) ^ ((((c & 0xff) as octet) ^ b) as word);
  }

  /** One table look-up does the work of eight shifts. */
  lemma TableStep(c: word, b: octet)
    ensures MODBUS.Step(c, b) == Xor(c >> 8, TableEntry(((c & 0xff) as octet) ^ b))
  {
    hide Shift, Mix, Xor, Iterate;
    var i := ((c & 0xff) as octet) ^ b;
    SplitWord(c, b);
    ModbusSound();
    IterateLinear(MODBUS, 8, (c >> 8) << 8, Mix(i));
    HighByteMovesDown(c);
  }

  // The literal table of crc16.cpp, sixteen entries a row.

  function Row0(i: octet): word {
    match i
    case 0 => 0x0000 case 1 => 0xC0C1 case 2 => 0xC181 case 3 => 0x0140 case 4 => 0xC301 case 5 => 0x03C0 case 6 => 0x0280 case 7 => 0xC241
    case 8 => 0xC601 case 9 => 0x06C0 case 10 => 0x0780 case 11 => 0xC741 case 12 => 0x0500 case 13 => 0xC5C1 case 14 => 0xC481 case _ => 0x0440
  }

  function Row1(i: octet): word {
    match i
    case 0 => 0xCC01 case 1 => 0x0CC0 case 2 => 0x0D80 case 3 => 0xCD41 case 4 => 0x0F00 case 5 => 0xCFC1 case 6 => 0xCE81 case 7 => 0x0E40
    case 8 => 0x0A00 case 9 => 0xCAC1 case 10 => 0xCB81 case 11 => 0x0B40 case 12 => 0xC901 case 13 => 0x09C0 case 14 => 0x0880 case _ => 0xC841
  }

  function Row2(i: octet): word {
    match i
    case 0 => 0xD801 case 1 => 0x18C0 case 2 => 0x1980 case 3 => 0xD941 case 4 => 0x1B00 case 5 => 0xDBC1 case 6 => 0xDA81 case 7 => 0x1A40
    case 8 => 0x1E00 case 9 => 0xDEC1 case 10 => 0xDF81 case 11 => 0x1F40 case 12 => 0xDD01 case 13 => 0x1DC0 case 14 => 0x1C80 case _ => 0xDC41
  }

  function Row3(i: octet): word {
    match i
    case 0 => 0x1400 case 1 => 0xD4C1 case 2 => 0xD581 case 3 => 0x1540 case 4 => 0xD701 case 5 => 0x17C0 case 6 => 0x1680 case 7 => 0xD641
    case 8 => 0xD201 case 9 => 0x12C0 case 10 => 0x1380 case 11 => 0xD341 case 12 => 0x1100 case 13 => 0xD1C1 case 14 => 0xD081 case _ => 0x1040
  }

  function Row4(i: octet): word {
    match i
    case 0 => 0xF001 case 1 => 0x30C0 case 2 => 0x3180 case 3 => 0xF141 case 4 => 0x3300 case 5 => 0xF3C1 case 6 => 0xF281 case 7 => 0x3240
    case 8 => 0x3600 case 9 => 0xF6C1 case 10 => 0xF781 case 11 => 0x3740 case 12 => 0xF501 case 13 => 0x35C0 case 14 => 0x3480 case _ => 0xF441
  }

  function Row5(i: octet): word {
    match i
    case 0 => 0x3C00 case 1 => 0xFCC1 case 2 => 0xFD81 case 3 => 0x3D40 case 4 => 0xFF01 case 5 => 0x3FC0 case 6 => 0x3E80 case 7 => 0xFE41
    case 8 => 0xFA01 case 9 => 0x3AC0 case 10 => 0x3B80 case 11 => 0xFB41 case 12 => 0x3900 case 13 => 0xF9C1 case 14 => 0xF881 case _ => 0x3840
  }

  function Row6(i: octet): word {
    match i
    case 0 => 0x2800 case 1 => 0xE8C1 case 2 => 0xE981 case 3 => 0x2940 case 4 => 0xEB01 case 5 => 0x2BC0 case 6 => 0x2A80 case 7 => 0xEA41
    case 8 => 0xEE01 case 9 => 0x2EC0 case 10 => 0x2F80 case 11 => 0xEF41 case 12 => 0x2D00 case 13 => 0xEDC1 case 14 => 0xEC81 case _ => 0x2C40
  }

  function Row7(i: octet): word {
    match i
    case 0 => 0xE401 case 1 => 0x24C0 case 2 => 0x2580 case 3 => 0xE541 case 4 => 0x2700 case 5 => 0xE7C1 case 6 => 0xE681 case 7 => 0x2640
    case 8 => 0x2200 case 9 => 0xE2C1 case 10 => 0xE381 case 11 => 0x2340 case 12 => 0xE101 case 13 => 0x21C0 case 14 => 0x2080 case _ => 0xE041
  }

  function Row8(i: octet): word {
    match i
    case 0 => 0xA001 case 1 => 0x60C0 case 2 => 0x6180 case 3 => 0xA141 case 4 => 0x6300 case 5 => 0xA3C1 case 6 => 0xA281 case 7 => 0x6240
    case 8 => 0x6600 case 9 => 0xA6C1 case 10 => 0xA781 case 11 => 0x6740 case 12 => 0xA501 case 13 => 0x65C0 case 14 => 0x6480 case _ => 0xA441
  }

  function Row9(i: octet): word {
    match i
    case 0 => 0x6C00 case 1 => 0xACC1 case 2 => 0xAD81 case 3 => 0x6D40 case 4 => 0xAF01 case 5 => 0x6FC0 case 6 => 0x6E80 case 7 => 0xAE41
    case 8 => 0xAA01 case 9 => 0x6AC0 case 10 => 0x6B80 case 11 => 0xAB41 case 12 => 0x6900 case 13 => 0xA9C1 case 14 => 0xA881 case _ => 0x6840
  }

  function Row10(i: octet): word {
    match i
    case 0 => 0x7800 case 1 => 0xB8C1 case 2 => 0xB981 case 3 => 0x7940 case 4 => 0xBB01 case 5 => 0x7BC0 case 6 => 0x7A80 case 7 => 0xBA41
    case 8 => 0xBE01 case 9 => 0x7EC0 case 10 => 0x7F80 case 11 => 0xBF41 case 12 => 0x7D00 case 13 => 0xBDC1 case 14 => 0xBC81 case _ => 0x7C40
  }

  function Row11(i: octet): word {
    match i
    case 0 => 0xB401 case 1 => 0x74C0 case 2 => 0x7580 case 3 => 0xB541 case 4 => 0x7700 case 5 => 0xB7C1 case 6 => 0xB681 case 7 => 0x7640
    case 8 => 0x7200 case 9 => 0xB2C1 case 10 => 0xB381 case 11 => 0x7340 case 12 => 0xB101 case 13 => 0x71C0 case 14 => 0x7080 case _ => 0xB041
  }

  function Row12(i: octet): word {
    match i
    case 0 => 0x5000 case 1 => 0x90C1 case 2 => 0x9181 case 3 => 0x5140 case 4 => 0x9301 case 5 => 0x53C0 case 6 => 0x5280 case 7 => 0x9241
    case 8 => 0x9601 case 9 => 0x56C0 case 10 => 0x5780 case 11 => 0x9741 case 12 => 0x5500 case 13 => 0x95C1 case 14 => 0x9481 case _ => 0x5440
  }

  function Row13(i: octet): word {
    match i
    case 0 => 0x9C01 case 1 => 0x5CC0 case 2 => 0x5D80 case 3 => 0x9D41 case 4 => 0x5F00 case 5 => 0x9FC1 case 6 => 0x9E81 case 7 => 0x5E40
    case 8 => 0x5A00 case 9 => 0x9AC1 case 10 => 0x9B81 case 11 => 0x5B40 case 12 => 0x9901 case 13 => 0x59C0 case 14 => 0x5880 case _ => 0x9841
  }

  function Row14(i: octet): word {
    match i
    case 0 => 0x8801 case 1 => 0x48C0 case 2 => 0x4980 case 3 => 0x8941 case 4 => 0x4B00 case 5 => 0x8BC1 case 6 => 0x8A81 case 7 => 0x4A40
    case 8 => 0x4E00 case 9 => 0x8EC1 case 10 => 0x8F81 case 11 => 0x4F40 case 12 => 0x8D01 case 13 => 0x4DC0 case 14 => 0x4C80 case _ => 0x8C41
  }

  function Row15(i: octet): word {
    match i
    case 0 => 0x4400 case 1 => 0x84C1 case 2 => 0x8581 case 3 => 0x4540 case 4 => 0x8701 case 5 => 0x47C0 case 6 => 0x4680 case 7 => 0x8641
    case 8 => 0x8201 case 9 => 0x42C0 case 10 => 0x4380 case 11 => 0x8341 case 12 => 0x4100 case 13 => 0x81C1 case 14 => 0x8081 case _ => 0x4040
  }

  /** `crc16_table[i]` of crc16.cpp. */
  function LiteralEntry(i: octet): word {
    match i >> 4
    case 0 => Row0(i & 15)
    case 1 => Row1(i & 15)
    case 2 => Row2(i & 15)
    case 3 => Row3(i & 15)
    case 4 => Row4(i & 15)
    case 5 => Row5(i & 15)
    case 6 => Row6(i & 15)
    case 7 => Row7(i & 15)
    case 8 => Row8(i & 15)
    case 9 => Row9(i & 15)
    case 10 => Row10(i & 15)
    case 11 => Row11(i & 15)
    case 12 => Row12(i & 15)
    case 13 => Row13(i & 15)
    case 14 => Row14(i & 15)
    case _ => Row15(i & 15)
  }

  lemma FirstQuarterGenerated(i: octet)
    requires i >> 6 == 0
    ensures LiteralEntry(i) == TableEntry(i)
  {
    ShiftEight(Mix(i));
    hide Iterate;
  }

  lemma SecondQuarterGenerated(i: octet)
    requires i >> 6 == 1
    ensures LiteralEntry(i) == TableEntry(i)
  {
    ShiftEight(Mix(i));
    hide Iterate;
  }

  lemma UpperHalfGenerated(i: octet)
    requires i >> 7 == 1
    ensures LiteralEntry(i) == TableEntry(i)
  {
    ShiftEight(Mix(i));
    hide Iterate;
  }

  /** Every literal of the C++ table is the entry the Python generator computes. */
  lemma LiteralTableGenerated(i: octet)
    ensures LiteralEntry(i) == TableEntry(i)
  {
    hide LiteralEntry, TableEntry;
    if i >> 6 == 0 {
      FirstQuarterGenerated(i);
    } else if i >> 6 == 1 {
      SecondQuarterGenerated(i);
    } else {
      UpperHalfGenerated(i);
    }
  }

  /** `crc16_byte`: the look-up index is the low byte of `crc ^ data`. */
  method Crc16Byte(crc: word, data: octet) returns (r: word)
    ensures r == MODBUS.Step(crc, data)
  {
    hide Shift, Mix, Iterate, Xor, TableEntry, LiteralEntry;
    TableStep(crc, data);
    IndexByte(crc, data);
    var entry := LiteralEntry(((crc ^ (data as word)) & 0xff) as octet);
    LiteralTableGenerated(((crc & 0xff) as octet) ^ data);
    XorIs(crc >> 8, entry);
    r := (crc >> 8) ^ entry;
  }

  lemma IndexByte(crc: word, data: octet)
    ensures ((crc ^ (data as word)) & 0xff) as octet == ((crc & 0xff) as octet) ^ data
  {
  }

  /** `crc16`: the first `len` bytes of `buffer`, continued from `crc0`. */
  method Crc16(crc0: word, buffer: seq<octet>, len: nat) returns (crc: word)
    requires len <= |buffer|
    ensures crc == MODBUS.Remainder(crc0, buffer[..len])
  {
    crc := crc0;
    var k := 0;
    while k < len
      invariant k <= len
      invariant crc == MODBUS.Remainder(crc0, buffer[..k])
    {
      assert buffer[..k + 1][..k] == buffer[..k];
      crc := Crc16Byte(crc, buffer[k]);
      k := k + 1;
    }
  }

  /** class CRC16 of CRC16.py: a generated table and the choice of starting value. */
  class Crc16Table {
    var table: seq<word>
    const modbus: bool

    ghost predicate Valid()
      reads this
    {
      |table| == 256 && forall k: nat | k < 256 :: table[k] == TableEntry(ToOctet(k))
    }

    constructor (modbus: bool)
      ensures Valid() && this.modbus == modbus
    {
      this.modbus := modbus;
      table := [];
      new;
      InitTable();
    }

    method InitTable()
      requires table == []
      modifies this`table
      ensures Valid()
    {
      hide Shift, Mix, Xor, TableEntry;
      for i := 0 to 256
        invariant |table| == i
        invariant forall k: nat | k < i :: table[k] == TableEntry(ToOctet(k))
      {
        var entry := GenerateEntry(ToOctet(i));
        table := table + [entry];
      }
    }

    /** The inner loop of the table generation, for row `i`. */
    static method GenerateEntry(i: octet) returns (crc: word)
      ensures crc == TableEntry(i)
    {
      hide Shift;
      crc := i as word;
      for j := 0 to 8
        invariant crc == Iterate(Shift, j, Mix(i))
      {
        Shifted(crc);
        if crc & 1 != 0 {
          crc := (crc >> 1) ^ 0xA001;
        } else {
          crc := crc >> 1;
        }
      }
    }

    /** `calculate`: the empty string is answered with 0 in both modes. */
    method Calculate(s: seq<octet>) returns (crc: word)
      requires Valid()
      ensures s == [] ==> crc == 0
      ensures s != [] ==> crc == MODBUS.Remainder(if modbus then 0xFFFF else 0, s)
    {
      if s == [] {
        return 0;
      }
      var start: word := if modbus then 0xFFFF else 0;
      crc := start;
      for k := 0 to |s|
        invariant crc == MODBUS.Remainder(start, s[..k])
      {
        assert s[..k + 1][..k] == s[..k];
        crc := LookUp(crc, s[k]);
      }
      assert s[..|s|] == s;
    }

    /** One pass through the loop of `calculate`. */
    method LookUp(crc: word, b: octet) returns (r: word)
      requires Valid()
      ensures r == MODBUS.Step(crc, b)
    {
      hide Shift, Mix, Iterate, TableEntry;
      TableStep(crc, b);
      IndexByte(crc, b);
      var tmp := ((crc ^ (b as word)) & 0xff) as octet;
      OctetRoundTrip(tmp);
      r := (crc >> 8) ^ table[FromOctet(tmp)];
    }
  }

  /**
   `crc16` started from 0xFFFF and `CRC16(True).calculate` give the same exactly on inputs that
   are not empty.
   */
  method BothTables(t: Crc16Table, s: seq<octet>) returns (literal: word, generated: word)
    requires t.Valid() && t.modbus
    ensures literal == generated <==> s != []
  {
    hide Shift, Mix, Xor, Iterate;
    literal := Crc16(0xFFFF, s, |s|);
    assert s[..|s|] == s;
    generated := t.Calculate(s);
  }

  /** Messages that differ in one byte or two adjacent ones have different checksums. */
  lemma MessagesTold(c: word, m: seq<octet>, m': seq<octet>, j: nat)
    requires DamagedAt(m, m', j)
    ensures MODBUS.Remainder(c, m) != MODBUS.Remainder(c, m')
  {
    ModbusSound();
    DamageDetected(MODBUS, c, m, m', j);
  }

  lemma OneStep(c: word, b: octet)
    ensures MODBUS.Step(c, b) == Shift(Shift(Shift(Shift(Shift(Shift(Shift(Shift(c ^ Mix(b)))))))))
  {
    ShiftEight(c ^ Mix(b));
  }

  lemma FirstThreeSteps()
    ensures MODBUS.Remainder(0xffff, [0x31, 0x32, 0x33]) == 0x7a75
  {
    ThreeBytes(MODBUS, 0xffff, 0x31, 0x32, 0x33);
    OneStep(0xffff, 0x31);
    OneStep(0x947e, 0x32);
    OneStep(0xf595, 0x33);
    assert MODBUS.Step(0xffff, 0x31) == 0x947e;
    assert MODBUS.Step(0x947e, 0x32) == 0xf595;
    assert MODBUS.Step(0xf595, 0x33) == 0x7a75;
    hide Iterate, Code.Remainder;
  }

  lemma MiddleThreeSteps()
    ensures MODBUS.Remainder(0x7a75, [0x34, 0x35, 0x36]) == 0x32e4
  {
    ThreeBytes(MODBUS, 0x7a75, 0x34, 0x35, 0x36);
    OneStep(0x7a75, 0x34);
    OneStep(0x30ba, 0x35);
    OneStep(0xa471, 0x36);
    assert MODBUS.Step(0x7a75, 0x34) == 0x30ba;
    assert MODBUS.Step(0x30ba, 0x35) == 0xa471;
    assert MODBUS.Step(0xa471, 0x36) == 0x32e4;
    hide Iterate, Code.Remainder;
  }

  lemma LastThreeSteps()
    ensures MODBUS.Remainder(0x32e4, [0x37, 0x38, 0x39]) == 0x4b37
  {
    ThreeBytes(MODBUS, 0x32e4, 0x37, 0x38, 0x39);
    OneStep(0x32e4, 0x37);
    OneStep(0x9d73, 0x38);
    OneStep(0x37dd, 0x39);
    assert MODBUS.Step(0x32e4, 0x37) == 0x9d73;
    assert MODBUS.Step(0x9d73, 0x38) == 0x37dd;
    assert MODBUS.Step(0x37dd, 0x39) == 0x4b37;
    hide Iterate, Code.Remainder;
  }

  /** The published check value of this code: its remainder of the nine characters 1 to 9. */
  lemma CheckValue()
    ensures MODBUS.Remainder(0xffff, [0x31, 0x32, 0x33, 0x34, 0x35, 0x36, 0x37, 0x38, 0x39]) == 0x4b37
  {
    hide Shift, Mix, Iterate, Code.Step, Code.Remainder, MODBUS;
    var first, middle, last: seq<octet> := [0x31, 0x32, 0x33], [0x34, 0x35, 0x36], [0x37, 0x38, 0x39];
    FirstThreeSteps();
    MiddleThreeSteps();
    LastThreeSteps();
    RemainderConcat(MODBUS, 0xffff, first, middle);
    RemainderConcat(MODBUS, 0xffff, first + middle, last);
    assert first + middle + last == [0x31, 0x32, 0x33, 0x34, 0x35, 0x36, 0x37, 0x38, 0x39];
  }
}
