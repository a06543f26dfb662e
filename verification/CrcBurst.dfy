/**
 Bursts: damage confined to sixteen consecutive bits of the line, wherever they lie in the bytes.
 A byte is divided bit by bit in the order in which its bits enter the remainder.
 */
module CrcBurst {
  import opened Bytes
  import opened CrcTheory
  import CrcCcitt
  import CrcModbus

  /** `entry` is where a bit enters the remainder, `bitsOf` the order of the bits of a byte. */
  datatype Serial = Serial(code: Code, entry: word, bitsOf: octet -> seq<bool>) {

    function Bit(c: word, x: bool): word {
      code.shift(Xor(c, if x then entry else 0))
    }

    function Bits(c: word, s: seq<bool>): word
      decreases |s|
    {
      if s == [] then c else Bits(Bit(c, s[0]), s[1..])
    }

    function Message(m: seq<octet>): seq<bool> {
      if m == [] then [] else Message(m[..|m| - 1]) + bitsOf(m[|m| - 1])
    }

    /** A byte is eight bits, and a bit that has entered is not gone before sixteen divisions. */
    ghost predicate Faithful() {
      && code.Sound()
      && (forall b :: |bitsOf(b)| == 8)
      && (forall c, b :: Bits(c, bitsOf(b)) == code.Step(c, b))
      && (forall s: seq<bool> | |s| < 16 :: Bits(code.shift(entry), s) != 0)
    }
  }

  /** The messages differ, and only within sixteen consecutive bits from bit `p` on. */
  ghost predicate BurstAt(k: Serial, m: seq<octet>, m': seq<octet>, p: nat) {
    var x, y := k.Message(m), k.Message(m');
    && m != m' && |x| == |y|
    && forall i | 0 <= i < |x| && !(p <= i < p + 16) :: x[i] == y[i]
  }

  // `Faithful` quantifies over everything; the lemmas below hide it and take single instances.

  lemma ByteAt(k: Serial, c: word, b: octet)
    requires k.Faithful()
    ensures |k.bitsOf(b)| == 8 && k.Bits(c, k.bitsOf(b)) == k.code.Step(c, b)
  {
  }

  lemma BitsTell(k: Serial, a: octet, b: octet)
    requires k.Faithful() && k.bitsOf(a) == k.bitsOf(b)
    ensures a == b
  {
    ByteAt(k, 0, a);
    ByteAt(k, 0, b);
    ByteInjective(k.code, 0, a, b);
  }

  lemma StaysAt(k: Serial, s: seq<bool>)
    requires k.Faithful() && |s| < 16
    ensures k.Bits(k.code.shift(k.entry), s) != 0
  {
  }

  lemma SoundAt(k: Serial, c: word, d: word)
    requires k.Faithful()
    ensures k.code.shift(Xor(c, d)) == Xor(k.code.shift(c), k.code.shift(d))
    ensures k.code.shift(c) == k.code.shift(d) ==> c == d
  {
    LinearAt(k.code, c, d);
    InjectiveAt(k.code, c, d);
  }

  lemma {:induction false} BitsConcat(k: Serial, c: word, s: seq<bool>, t: seq<bool>)
    ensures k.Bits(c, s + t) == k.Bits(k.Bits(c, s), t)
    decreases |s|
  {
    hide Serial.Bit;
    if s == [] {
      assert s + t == t;
    } else {
      assert (s + t)[1..] == s[1..] + t;
      BitsConcat(k, k.Bit(c, s[0]), s[1..], t);
    }
  }

  /** Byte by byte and bit by bit give the same remainder. */
  lemma {:induction false} MessageRemainder(k: Serial, c: word, m: seq<octet>)
    requires k.Faithful()
    ensures k.Bits(c, k.Message(m)) == k.code.Remainder(c, m)
    ensures |k.Message(m)| == 8 * |m|
  {
    hide Serial.Faithful, Serial.Bit, Serial.Bits, Code.Step;
    if m == [] {
      BitsOfNothing(k, c);
    } else {
      var front, b := m[..|m| - 1], m[|m| - 1];
      MessageRemainder(k, c, front);
      BitsConcat(k, c, k.Message(front), k.bitsOf(b));
      ByteAt(k, k.code.Remainder(c, front), b);
    }
  }

  lemma BitsOfNothing(k: Serial, c: word)
    ensures k.Bits(c, []) == c
  {
  }

  lemma {:induction false} MessageInjective(k: Serial, m: seq<octet>, m': seq<octet>)
    requires k.Faithful() && k.Message(m) == k.Message(m')
    ensures m == m'
  {
    hide Serial.Faithful, Serial.Bits, Code.Remainder;
    MessageRemainder(k, 0, m);
    MessageRemainder(k, 0, m');
    if m != [] {
      var n := |m| - 1;
      var x, y := k.Message(m[..n]), k.Message(m'[..n]);
      var b, b' := k.bitsOf(m[n]), k.bitsOf(m'[n]);
      MessageRemainder(k, 0, m[..n]);
      MessageRemainder(k, 0, m'[..n]);
      assert x == (x + b)[..|x|] && b == (x + b)[|x|..];
      assert y == (y + b')[..|x|] && b' == (y + b')[|x|..];
      MessageInjective(k, m[..n], m'[..n]);
      BitsTell(k, m[n], m'[n]);
      assert m == m[..n] + [m[n]] && m' == m'[..n] + [m'[n]];
    }
  }

  lemma {:induction false} BitsInjective(k: Serial, c: word, d: word, s: seq<bool>)
    requires k.Faithful() && k.Bits(c, s) == k.Bits(d, s)
    ensures c == d
    decreases |s|
  {
    hide Serial.Faithful, Xor;
    if s != [] {
      BitsInjective(k, k.Bit(c, s[0]), k.Bit(d, s[0]), s[1..]);
      var e := if s[0] then k.entry else 0;
      SoundAt(k, Xor(c, e), Xor(d, e));
      XorCancels(c, d, e);
    }
  }

  function Differences(x: seq<bool>, y: seq<bool>): (d: seq<bool>)
    requires |x| == |y|
    ensures |d| == |x|
  {
    seq(|x|, i requires 0 <= i < |x| => x[i] != y[i])
  }

  lemma EntryXor(e: word, x: bool, y: bool, c: word, d: word)
    ensures Xor(Xor(c, if x then e else 0), Xor(d, if y then e else 0)) == Xor(Xor(c, d), if x != y then e else 0)
  {
    var a, b := if x then e else 0, if y then e else 0;
    XorFour(c, a, d, b);
    assert Xor(a, b) == if x != y then e else 0 by { XorSelf(e); }
  }

  lemma XorAssociates(a: word, b: word, c: word)
    ensures Xor(Xor(a, b), c) == Xor(a, Xor(b, c)) && Xor(b, c) == Xor(c, b)
  {
  }

  lemma XorFour(a: word, b: word, c: word, d: word)
    ensures Xor(Xor(a, b), Xor(c, d)) == Xor(Xor(a, c), Xor(b, d))
  {
    hide Xor;
    XorAssociates(a, b, Xor(c, d));
    XorAssociates(a, b, c);
    XorAssociates(b, c, d);
    XorAssociates(c, b, d);
    XorAssociates(a, c, Xor(b, d));
  }

  lemma XorSelf(e: word)
    ensures Xor(e, e) == 0 && Xor(e, 0) == e && Xor(0, e) == e && Xor(0, 0) == 0
  {
  }

  /** The difference of two remainders is the remainder of the difference. */
  lemma {:induction false} BitsLinear(k: Serial, c: word, d: word, x: seq<bool>, y: seq<bool>)
    requires k.Faithful() && |x| == |y|
    ensures Xor(k.Bits(c, x), k.Bits(d, y)) == k.Bits(Xor(c, d), Differences(x, y))
    decreases |x|
  {
    hide Serial.Faithful, Xor;
    if x != [] {
      var e := k.entry;
      BitsLinear(k, k.Bit(c, x[0]), k.Bit(d, y[0]), x[1..], y[1..]);
      SoundAt(k, Xor(c, if x[0] then e else 0), Xor(d, if y[0] then e else 0));
      EntryXor(e, x[0], y[0], c, d);
      assert Differences(x, y)[1..] == Differences(x[1..], y[1..]);
    }
  }

  /** Sixteen bits or fewer that leave nothing behind are all zero. */
  lemma {:induction false} NoShortNull(k: Serial, s: seq<bool>)
    requires k.Faithful() && |s| <= 16 && k.Bits(0, s) == 0
    ensures forall x | x in s :: !x
    decreases |s|
  {
    hide Serial.Faithful, Xor;
    if s != [] {
      XorSelf(k.entry);
      SoundAt(k, 0, 0);
      XorSelf(k.code.shift(0));
      if s[0] {
        StaysAt(k, s[1..]);
      } else {
        NoShortNull(k, s[1..]);
        assert s == [s[0]] + s[1..];
      }
    }
  }

  lemma WindowTold(k: Serial, c: word, x: seq<bool>, y: seq<bool>)
    requires k.Faithful() && |x| == |y| <= 16 && k.Bits(c, x) == k.Bits(c, y)
    ensures x == y
  {
    hide Serial.Faithful, Serial.Bits, Xor;
    BitsLinear(k, c, c, x, y);
    XorSelf(c);
    XorSelf(k.Bits(c, x));
    SameXor(c);
    SameXor(k.Bits(c, x));
    NoShortNull(k, Differences(x, y));
    forall i | 0 <= i < |x| ensures x[i] == y[i] {
      assert Differences(x, y)[i] in Differences(x, y);
    }
  }

  lemma SameXor(c: word)
    ensures Xor(c, c) == 0
  {
  }

  /** A burst of at most sixteen bits changes the remainder, for messages of any length. */
  lemma BurstDetected(k: Serial, c: word, m: seq<octet>, m': seq<octet>, p: nat)
    requires k.Faithful() && BurstAt(k, m, m', p)
    ensures k.code.Remainder(c, m) != k.code.Remainder(c, m')
  {
    hide Serial.Faithful, Serial.Bits, Serial.Message, Code.Remainder;
    var x, y := k.Message(m), k.Message(m');
    MessageRemainder(k, c, m);
    MessageRemainder(k, c, m');
    if k.code.Remainder(c, m) == k.code.Remainder(c, m') {
      BitsTold(k, c, x, y, p);
      MessageInjective(k, m, m');
    }
  }

  lemma BitsTold(k: Serial, c: word, x: seq<bool>, y: seq<bool>, p: nat)
    requires k.Faithful() && |x| == |y| && k.Bits(c, x) == k.Bits(c, y)
    requires forall i | 0 <= i < |x| && !(p <= i < p + 16) :: x[i] == y[i]
    ensures x == y
  {
    hide Serial.Faithful, Serial.Bits;
    var a := if p <= |x| then p else |x|;
    var e := if p + 16 <= |x| then p + 16 else |x|;
    var before, w, w', after := x[..a], x[a..e], y[a..e], x[e..];
    assert x == before + w + after && y == before + w' + after;
    BitsConcat(k, c, before + w, after);
    BitsConcat(k, c, before, w);
    BitsConcat(k, c, before + w', after);
    BitsConcat(k, c, before, w');
    BitsInjective(k, k.Bits(c, before + w), k.Bits(c, before + w'), after);
    WindowTold(k, k.Bits(c, before), w, w');
  }

  lemma {:induction false} IterateFirst(f: word -> word, n: nat, c: word)
    ensures Iterate(f, n + 1, c) == Iterate(f, n, f(c))
  {
    if n > 0 {
      IterateFirst(f, n - 1, c);
    }
  }

  // ----- the 0x1021 code: the highest bit of a byte first -----

  /** The `n` highest bits, the highest first. */
  function HighBits(b: octet, n: nat): (s: seq<bool>)
    ensures |s| == n
    decreases n
  {
    if n == 0 then [] else [b & 0x80 != 0] + HighBits(b << 1, n - 1)
  }

  function ShiftedUp(b: octet, n: nat): octet
    decreases n
  {
    if n == 0 then b else ShiftedUp(b << 1, n - 1)
  }

  const CCITT := Serial(CrcCcitt.CCITT, 0x8000, b => HighBits(b, 8))

  lemma CcittTopBit(b: octet)
    ensures CrcCcitt.Mix(b) == Xor(if b & 0x80 != 0 then 0x8000 else 0, CrcCcitt.Mix(b & 0x7f))
    ensures CrcCcitt.Shift(CrcCcitt.Mix(b & 0x7f)) == CrcCcitt.Mix(b << 1)
  {
  }

  lemma CcittOneBit(c: word, b: octet)
    ensures CrcCcitt.Shift(Xor(c, CrcCcitt.Mix(b))) == Xor(CCITT.Bit(c, b & 0x80 != 0), CrcCcitt.Mix(b << 1))
  {
    hide Xor, CrcCcitt.Shift, CrcCcitt.Mix;
    var e: word := if b & 0x80 != 0 then 0x8000 else 0;
    CcittTopBit(b);
    XorAssociates(c, e, CrcCcitt.Mix(b & 0x7f));
    CrcCcitt.ShiftLinear(Xor(c, e), CrcCcitt.Mix(b & 0x7f));
  }

  lemma {:induction false} CcittBits(c: word, b: octet, n: nat)
    ensures Iterate(CrcCcitt.Shift, n, Xor(c, CrcCcitt.Mix(b)))
         == Xor(CCITT.Bits(c, HighBits(b, n)), CrcCcitt.Mix(ShiftedUp(b, n)))
    decreases n
  {
    hide Xor, CrcCcitt.Shift, CrcCcitt.Mix, Serial.Bit;
    if n > 0 {
      IterateFirst(CrcCcitt.Shift, n - 1, Xor(c, CrcCcitt.Mix(b)));
      CcittOneBit(c, b);
      CcittBits(CCITT.Bit(c, b & 0x80 != 0), b << 1, n - 1);
      assert HighBits(b, n)[1..] == HighBits(b << 1, n - 1);
    }
  }

  lemma AllShiftedUp(b: octet)
    ensures ShiftedUp(b, 8) == 0
  {
    assert ShiftedUp(b, 8) == ShiftedUp(b << 1, 7);
    assert ShiftedUp(b << 1, 7) == ShiftedUp(b << 2, 6);
    assert ShiftedUp(b << 2, 6) == ShiftedUp(b << 3, 5);
    assert ShiftedUp(b << 3, 5) == ShiftedUp(b << 4, 4);
    assert ShiftedUp(b << 4, 4) == ShiftedUp(b << 5, 3);
    assert ShiftedUp(b << 5, 3) == ShiftedUp(b << 6, 2);
    assert ShiftedUp(b << 6, 2) == ShiftedUp(b << 7, 1);
    assert ShiftedUp(b << 7, 1) == ShiftedUp(0, 0);
  }

  lemma NothingMixed(c: word)
    ensures Xor(c, CrcCcitt.Mix(0)) == c && Xor(c, CrcModbus.Mix(0)) == c
  {
  }

  lemma CcittByte(c: word, b: octet)
    ensures CCITT.Bits(c, HighBits(b, 8)) == CrcCcitt.CCITT.Step(c, b)
  {
    hide Xor, CrcCcitt.Shift, CrcCcitt.Mix, Serial.Bits, HighBits, ShiftedUp, Iterate;
    CcittBits(c, b, 8);
    AllShiftedUp(b);
    NothingMixed(CCITT.Bits(c, HighBits(b, 8)));
  }

  /** The low bits that must be zero if `k` more divisions are to leave nothing. */
  function LowMask(k: nat): word {
    if k == 0 then 0xffff else LowMask(k - 1) >> 1
  }

  lemma LowMaskIsOdd(k: nat)
    requires k < 16
    ensures LowMask(k) & 1 == 1
  {
    assert LowMask(0) == 0xffff && LowMask(1) == 0x7fff && LowMask(2) == 0x3fff && LowMask(3) == 0x1fff;
    assert LowMask(4) == 0x0fff && LowMask(5) == 0x07ff && LowMask(6) == 0x03ff && LowMask(7) == 0x01ff;
    assert LowMask(8) == 0x00ff && LowMask(9) == 0x007f && LowMask(10) == 0x003f && LowMask(11) == 0x001f;
    assert LowMask(12) == 0x000f && LowMask(13) == 0x0007 && LowMask(14) == 0x0003 && LowMask(15) == 0x0001;
  }

  lemma OddMeets(a: word, m: word)
    requires a & 1 == 1 && m & 1 == 1
    ensures a & m != 0
  {
    assert (a & m) & 1 == (a & 1) & (m & 1);
  }

  lemma CcittFeedback(y: word)
    ensures y & 0x8000 != 0 ==> CrcCcitt.Shift(y) & 1 == 1
    ensures y & 0x8000 == 0 ==> CrcCcitt.Shift(y) == y << 1
  {
  }

  lemma MaskDown(y: word, m: word)
    requires y & 0x8000 == 0 && (y << 1) & m == 0
    ensures y & (m >> 1) == 0
  {
  }

  lemma CcittMaskDown(y: word, m: word)
    requires m & 1 == 1 && CrcCcitt.Shift(y) & m == 0
    ensures y & (m >> 1) == 0
  {
    hide CrcCcitt.Shift;
    CcittFeedback(y);
    if y & 0x8000 != 0 {
      OddMeets(CrcCcitt.Shift(y), m);
    } else {
      MaskDown(y, m);
    }
  }

  lemma TopMasked(m: word)
    ensures (m >> 1) & 0x8000 == 0
  {
  }

  lemma Ignored(d: word, e: word, n: word)
    requires n & e == 0 && Xor(d, e) & n == 0
    ensures d & n == 0
  {
  }

  lemma CcittMask(d: word, x: bool, m: word)
    requires m & 1 == 1 && CCITT.Bit(d, x) & m == 0
    ensures d & (m >> 1) == 0
  {
    var e: word := if x then 0x8000 else 0;
    assert (m >> 1) & e == 0 by { TopMasked(m); }
    hide CrcCcitt.Shift, Xor;
    CcittMaskDown(Xor(d, e), m);
    Ignored(d, e, m >> 1);
  }

  lemma {:induction false} CcittKilled(d: word, s: seq<bool>)
    requires |s| < 16 && CCITT.Bits(d, s) == 0
    ensures d & LowMask(|s|) == 0
    decreases |s|
  {
    hide Serial.Bit;
    if s != [] {
      CcittKilled(CCITT.Bit(d, s[0]), s[1..]);
      LowMaskIsOdd(|s| - 1);
      CcittMask(d, s[0], LowMask(|s| - 1));
    }
  }

  lemma CcittStays(s: seq<bool>)
    requires |s| < 16
    ensures CCITT.Bits(CrcCcitt.Shift(0x8000), s) != 0
  {
    hide Serial.Bits, LowMask;
    assert CrcCcitt.Shift(0x8000) == 0x1021;
    LowMaskIsOdd(|s|);
    OddMeets(0x1021, LowMask(|s|));
    if CCITT.Bits(0x1021, s) == 0 {
      CcittKilled(0x1021, s);
    }
  }

  lemma CcittFaithful()
    ensures CCITT.Faithful()
  {
    hide Serial.Bits, Code.Sound, Code.Step, HighBits, CrcCcitt.Shift;
    CrcCcitt.CcittSound();
    forall c, b ensures CCITT.Bits(c, CCITT.bitsOf(b)) == CrcCcitt.CCITT.Step(c, b) { CcittByte(c, b); }
    forall s: seq<bool> | |s| < 16 ensures CCITT.Bits(CrcCcitt.Shift(0x8000), s) != 0 { CcittStays(s); }
  }

  // ----- the 0xA001 code: the lowest bit of a byte first -----

  /** The `n` lowest bits, the lowest first. */
  function LowBits(b: octet, n: nat): (s: seq<bool>)
    ensures |s| == n
    decreases n
  {
    if n == 0 then [] else [b & 0x01 != 0] + LowBits(b >> 1, n - 1)
  }

  function ShiftedDown(b: octet, n: nat): octet
    decreases n
  {
    if n == 0 then b else ShiftedDown(b >> 1, n - 1)
  }

  const MODBUS := Serial(CrcModbus.MODBUS, 0x0001, b => LowBits(b, 8))

  lemma ModbusBottomBit(b: octet)
    ensures CrcModbus.Mix(b) == Xor(if b & 0x01 != 0 then 0x0001 else 0, CrcModbus.Mix(b & 0xfe))
    ensures CrcModbus.Shift(CrcModbus.Mix(b & 0xfe)) == CrcModbus.Mix(b >> 1)
  {
  }

  lemma ModbusOneBit(c: word, b: octet)
    ensures CrcModbus.Shift(Xor(c, CrcModbus.Mix(b))) == Xor(MODBUS.Bit(c, b & 0x01 != 0), CrcModbus.Mix(b >> 1))
  {
    hide Xor, CrcModbus.Shift, CrcModbus.Mix;
    var e: word := if b & 0x01 != 0 then 0x0001 else 0;
    ModbusBottomBit(b);
    XorAssociates(c, e, CrcModbus.Mix(b & 0xfe));
    CrcModbus.ShiftLinear(Xor(c, e), CrcModbus.Mix(b & 0xfe));
  }

  lemma {:induction false} ModbusBits(c: word, b: octet, n: nat)
    ensures Iterate(CrcModbus.Shift, n, Xor(c, CrcModbus.Mix(b)))
         == Xor(MODBUS.Bits(c, LowBits(b, n)), CrcModbus.Mix(ShiftedDown(b, n)))
    decreases n
  {
    hide Xor, CrcModbus.Shift, CrcModbus.Mix, Serial.Bit;
    if n > 0 {
      IterateFirst(CrcModbus.Shift, n - 1, Xor(c, CrcModbus.Mix(b)));
      ModbusOneBit(c, b);
      ModbusBits(MODBUS.Bit(c, b & 0x01 != 0), b >> 1, n - 1);
      assert LowBits(b, n)[1..] == LowBits(b >> 1, n - 1);
    }
  }

  lemma AllShiftedDown(b: octet)
    ensures ShiftedDown(b, 8) == 0
  {
    assert ShiftedDown(b, 8) == ShiftedDown(b >> 1, 7);
    assert ShiftedDown(b >> 1, 7) == ShiftedDown(b >> 2, 6);
    assert ShiftedDown(b >> 2, 6) == ShiftedDown(b >> 3, 5);
    assert ShiftedDown(b >> 3, 5) == ShiftedDown(b >> 4, 4);
    assert ShiftedDown(b >> 4, 4) == ShiftedDown(b >> 5, 3);
    assert ShiftedDown(b >> 5, 3) == ShiftedDown(b >> 6, 2);
    assert ShiftedDown(b >> 6, 2) == ShiftedDown(b >> 7, 1);
    assert ShiftedDown(b >> 7, 1) == ShiftedDown(0, 0);
  }

  lemma ModbusByte(c: word, b: octet)
    ensures MODBUS.Bits(c, LowBits(b, 8)) == CrcModbus.MODBUS.Step(c, b)
  {
    hide Xor, CrcModbus.Shift, CrcModbus.Mix, Serial.Bits, LowBits, ShiftedDown, Iterate;
    ModbusBits(c, b, 8);
    AllShiftedDown(b);
    NothingMixed(MODBUS.Bits(c, LowBits(b, 8)));
  }

  /** The high bits that must be zero if `k` more divisions are to leave nothing. */
  function HighMask(k: nat): word {
    if k == 0 then 0xffff else HighMask(k - 1) << 1
  }

  lemma HighMaskHasTop(k: nat)
    requires k < 16
    ensures HighMask(k) & 0x8000 == 0x8000
  {
    assert HighMask(0) == 0xffff && HighMask(1) == 0xfffe && HighMask(2) == 0xfffc && HighMask(3) == 0xfff8;
    assert HighMask(4) == 0xfff0 && HighMask(5) == 0xffe0 && HighMask(6) == 0xffc0 && HighMask(7) == 0xff80;
    assert HighMask(8) == 0xff00 && HighMask(9) == 0xfe00 && HighMask(10) == 0xfc00 && HighMask(11) == 0xf800;
    assert HighMask(12) == 0xf000 && HighMask(13) == 0xe000 && HighMask(14) == 0xc000 && HighMask(15) == 0x8000;
  }

  lemma TopMeets(a: word, m: word)
    requires a & 0x8000 == 0x8000 && m & 0x8000 == 0x8000
    ensures a & m != 0
  {
    assert (a & m) & 0x8000 == (a & 0x8000) & (m & 0x8000);
  }

  lemma ModbusFeedback(y: word)
    ensures y & 1 != 0 ==> CrcModbus.Shift(y) & 0x8000 == 0x8000
    ensures y & 1 == 0 ==> CrcModbus.Shift(y) == y >> 1
  {
  }

  lemma MaskUp(y: word, m: word)
    requires y & 1 == 0 && (y >> 1) & m == 0
    ensures y & (m << 1) == 0
  {
  }

  lemma ModbusMaskUp(y: word, m: word)
    requires m & 0x8000 == 0x8000 && CrcModbus.Shift(y) & m == 0
    ensures y & (m << 1) == 0
  {
    hide CrcModbus.Shift;
    ModbusFeedback(y);
    if y & 1 != 0 {
      TopMeets(CrcModbus.Shift(y), m);
    } else {
      MaskUp(y, m);
    }
  }

  lemma BottomMasked(m: word)
    ensures (m << 1) & 1 == 0
  {
  }

  lemma ModbusMask(d: word, x: bool, m: word)
    requires m & 0x8000 == 0x8000 && MODBUS.Bit(d, x) & m == 0
    ensures d & (m << 1) == 0
  {
    var e: word := if x then 1 else 0;
    assert (m << 1) & e == 0 by { BottomMasked(m); }
    hide CrcModbus.Shift, Xor;
    ModbusMaskUp(Xor(d, e), m);
    Ignored(d, e, m << 1);
  }

  lemma {:induction false} ModbusKilled(d: word, s: seq<bool>)
    requires |s| < 16 && MODBUS.Bits(d, s) == 0
    ensures d & HighMask(|s|) == 0
    decreases |s|
  {
    hide Serial.Bit;
    if s != [] {
      ModbusKilled(MODBUS.Bit(d, s[0]), s[1..]);
      HighMaskHasTop(|s| - 1);
      ModbusMask(d, s[0], HighMask(|s| - 1));
    }
  }

  lemma ModbusStays(s: seq<bool>)
    requires |s| < 16
    ensures MODBUS.Bits(CrcModbus.Shift(0x0001), s) != 0
  {
    hide Serial.Bits, HighMask;
    assert CrcModbus.Shift(0x0001) == 0xA001;
    HighMaskHasTop(|s|);
    TopMeets(0xA001, HighMask(|s|));
    if MODBUS.Bits(0xA001, s) == 0 {
      ModbusKilled(0xA001, s);
    }
  }

  lemma ModbusFaithful()
    ensures MODBUS.Faithful()
  {
    hide Serial.Bits, Code.Sound, Code.Step, LowBits, CrcModbus.Shift;
    CrcModbus.ModbusSound();
    forall c, b ensures MODBUS.Bits(c, MODBUS.bitsOf(b)) == CrcModbus.MODBUS.Step(c, b) { ModbusByte(c, b); }
    forall s: seq<bool> | |s| < 16 ensures MODBUS.Bits(CrcModbus.Shift(0x0001), s) != 0 { ModbusStays(s); }
  }

  /** Both codes, from any starting value, for messages of any length. */
  lemma CcittBurst(c: word, m: seq<octet>, m': seq<octet>, p: nat)
    requires BurstAt(CCITT, m, m', p)
    ensures CrcCcitt.CCITT.Remainder(c, m) != CrcCcitt.CCITT.Remainder(c, m')
  {
    hide Serial.Faithful, BurstAt, Code.Remainder;
    CcittFaithful();
    BurstDetected(CCITT, c, m, m', p);
  }

  lemma ModbusBurst(c: word, m: seq<octet>, m': seq<octet>, p: nat)
    requires BurstAt(MODBUS, m, m', p)
    ensures CrcModbus.MODBUS.Remainder(c, m) != CrcModbus.MODBUS.Remainder(c, m')
  {
    hide Serial.Faithful, BurstAt, Code.Remainder;
    ModbusFaithful();
    BurstDetected(MODBUS, c, m, m', p);
  }
}
