/** Both codes keep the parity of the bits they divide, so an odd number of flipped bits shows. */
module CrcParity {
  import opened Bytes
  import opened CrcTheory
  import CrcCcitt
  import CrcModbus

  // ----- parity of bits -----

  /** The number of bits that are set. */
  function Ones(o: octet): nat {
    (if o & 0x01 != 0 then 1 else 0) + (if o & 0x02 != 0 then 1 else 0)
    + (if o & 0x04 != 0 then 1 else 0) + (if o & 0x08 != 0 then 1 else 0)
    + (if o & 0x10 != 0 then 1 else 0) + (if o & 0x20 != 0 then 1 else 0)
    + (if o & 0x40 != 0 then 1 else 0) + (if o & 0x80 != 0 then 1 else 0)
  }

  predicate OddFour(a: bool, b: bool, c: bool, d: bool) {
    (a != b) != (c != d)
  }

  predicate OddLowFour(o: octet) {
    OddFour(o & 0x01 != 0, o & 0x02 != 0, o & 0x04 != 0, o & 0x08 != 0)
  }

  predicate OddHighFour(o: octet) {
    OddFour(o & 0x10 != 0, o & 0x20 != 0, o & 0x40 != 0, o & 0x80 != 0)
  }

  predicate OddOctet(o: octet) {
    OddLowFour(o) != OddHighFour(o)
  }

  function High(c: word): octet {
    (c >> 8) as octet
  }

  function Lower(c: word): octet {
    (c & 0xff) as octet
  }

  predicate OddWord(c: word) {
    OddOctet(Lower(c)) != OddOctet(High(c))
  }

  lemma OddOctetCounts(o: octet)
    ensures OddOctet(o) <==> Ones(o) % 2 == 1
  {
  }

  lemma OddLowFourXor(a: octet, b: octet)
    ensures OddLowFour(a ^ b) == (OddLowFour(a) != OddLowFour(b))
  {
  }

  lemma OddHighFourXor(a: octet, b: octet)
    ensures OddHighFour(a ^ b) == (OddHighFour(a) != OddHighFour(b))
  {
  }

  lemma OddOctetXor(a: octet, b: octet)
    ensures OddOctet(a ^ b) == (OddOctet(a) != OddOctet(b))
  {
    hide OddLowFour, OddHighFour;
    OddLowFourXor(a, b);
    OddHighFourXor(a, b);
  }

  lemma HalvesXor(a: word, b: word)
    ensures Lower(Xor(a, b)) == Lower(a) ^ Lower(b) && High(Xor(a, b)) == High(a) ^ High(b)
  {
  }

  lemma OddWordXor(a: word, b: word)
    ensures OddWord(Xor(a, b)) == (OddWord(a) != OddWord(b))
  {
    hide OddOctet, Lower, High, Xor;
    HalvesXor(a, b);
    OddOctetXor(Lower(a), Lower(b));
    OddOctetXor(High(a), High(b));
  }

  // ----- codes that keep parity -----

  /** The divisor has an even number of terms. */
  ghost predicate KeepsParity(k: Code) {
    && (forall c :: OddWord(k.shift(c)) == OddWord(c))
    && (forall b :: OddWord(k.mix(b)) == OddOctet(b))
  }

  lemma ParityAt(k: Code, c: word, b: octet)
    requires KeepsParity(k)
    ensures OddWord(k.shift(c)) == OddWord(c)
    ensures OddWord(k.mix(b)) == OddOctet(b)
  {
    hide OddWord, OddOctet;
  }

  predicate OddMessage(s: seq<octet>) {
    s != [] && (OddMessage(s[..|s| - 1]) != OddOctet(s[|s| - 1]))
  }

  /** The number of bit positions in which two messages differ. */
  function FlippedBits(m: seq<octet>, m': seq<octet>): nat
    requires |m| == |m'|
  {
    if m == [] then 0
    else FlippedBits(m[..|m| - 1], m'[..|m| - 1]) + Ones(m[|m| - 1] ^ m'[|m| - 1])
  }

  lemma {:induction false} IterateParity(k: Code, n: nat, c: word)
    requires KeepsParity(k)
    ensures OddWord(Iterate(k.shift, n, c)) == OddWord(c)
  {
    hide KeepsParity, OddWord;
    if n > 0 {
      IterateParity(k, n - 1, c);
      ParityAt(k, Iterate(k.shift, n - 1, c), 0);
    }
  }

  /** The remainder is odd exactly when either the start or the message is. */
  lemma {:induction false} RemainderParity(k: Code, c: word, s: seq<octet>)
    requires KeepsParity(k)
    ensures OddWord(k.Remainder(c, s)) == (OddWord(c) != OddMessage(s))
  {
    hide KeepsParity, OddWord, OddOctet, Iterate, Xor;
    if s != [] {
      var r, b := k.Remainder(c, s[..|s| - 1]), s[|s| - 1];
      RemainderParity(k, c, s[..|s| - 1]);
      IterateParity(k, 8, Xor(r, k.mix(b)));
      OddWordXor(r, k.mix(b));
      ParityAt(k, r, b);
    }
  }

  lemma {:induction false} FlippedParity(m: seq<octet>, m': seq<octet>)
    requires |m| == |m'|
    ensures FlippedBits(m, m') % 2 == 1 <==> OddMessage(m) != OddMessage(m')
  {
    hide Ones, OddOctet;
    if m != [] {
      var a, b := m[|m| - 1], m'[|m| - 1];
      FlippedParity(m[..|m| - 1], m'[..|m| - 1]);
      OddOctetCounts(a ^ b);
      OddOctetXor(a, b);
    }
  }

  /** An odd number of flipped bits, wherever they are, changes the remainder. */
  lemma OddDamageDetected(k: Code, c: word, m: seq<octet>, m': seq<octet>)
    requires KeepsParity(k)
    requires |m| == |m'| && FlippedBits(m, m') % 2 == 1
    ensures k.Remainder(c, m) != k.Remainder(c, m')
  {
    hide KeepsParity, OddWord, Iterate, Xor, FlippedBits, OddMessage;
    FlippedParity(m, m');
    RemainderParity(k, c, m);
    RemainderParity(k, c, m');
  }

  // ----- the two codes -----

  /** A bit moves in at one end of an octet and a bit out at the other. */
  function Up(o: octet, enters: bool): octet {
    (o << 1) | (if enters then 0x01 else 0)
  }

  function Down(o: octet, enters: bool): octet {
    (o >> 1) | (if enters then 0x80 else 0)
  }

  predicate TopOf(o: octet) {
    o & 0x80 != 0
  }

  predicate BottomOf(o: octet) {
    o & 0x01 != 0
  }

  lemma MovesUp(o: octet, enters: bool)
    ensures OddOctet(Up(o, enters)) == ((OddOctet(o) != enters) != TopOf(o))
  {
  }

  lemma MovesDown(o: octet, enters: bool)
    ensures OddOctet(Down(o, enters)) == ((OddOctet(o) != enters) != BottomOf(o))
  {
  }

  lemma HalvesUp(c: word)
    ensures Lower(c << 1) == Up(Lower(c), false) && High(c << 1) == Up(High(c), TopOf(Lower(c)))
    ensures TopOf(High(c)) <==> c & 0x8000 != 0
  {
  }

  lemma HalvesDown(c: word)
    ensures High(c >> 1) == Down(High(c), false) && Lower(c >> 1) == Down(Lower(c), BottomOf(High(c)))
    ensures BottomOf(Lower(c)) <==> c & 1 != 0
  {
  }

  /** Shifting loses the parity of the bit that falls out. */
  lemma WordUp(c: word)
    ensures OddWord(c << 1) == (OddWord(c) != (c & 0x8000 != 0))
  {
    hide OddOctet, Lower, High, Up, TopOf;
    HalvesUp(c);
    MovesUp(Lower(c), false);
    MovesUp(High(c), TopOf(Lower(c)));
  }

  lemma WordDown(c: word)
    ensures OddWord(c >> 1) == (OddWord(c) != (c & 1 != 0))
  {
    hide OddOctet, Lower, High, Down, BottomOf;
    HalvesDown(c);
    MovesDown(High(c), false);
    MovesDown(Lower(c), BottomOf(High(c)));
  }

  /** Three terms besides the leading one. */
  lemma DivisorsAreOdd()
    ensures OddWord(0x1021) && OddWord(0xA001)
  {
  }

  lemma CcittBit(c: word)
    ensures OddWord(CrcCcitt.Shift(c)) == OddWord(c)
  {
    DivisorsAreOdd();
    hide OddWord, Xor, CrcCcitt.Shift;
    CrcCcitt.Shifted(c);
    WordUp(c);
    OddWordXor(c << 1, 0x1021);
    XorIs(c << 1, 0x1021);
  }

  lemma ModbusBit(c: word)
    ensures OddWord(CrcModbus.Shift(c)) == OddWord(c)
  {
    DivisorsAreOdd();
    hide OddWord, Xor, CrcModbus.Shift;
    CrcModbus.Shifted(c);
    WordDown(c);
    OddWordXor(c >> 1, 0xA001);
    XorIs(c >> 1, 0xA001);
  }

  lemma MixParity(b: octet)
    ensures OddWord(CrcCcitt.Mix(b)) == OddOctet(b)
    ensures OddWord(CrcModbus.Mix(b)) == OddOctet(b)
  {
    assert Lower(CrcCcitt.Mix(b)) == 0 && High(CrcCcitt.Mix(b)) == b;
    assert Lower(CrcModbus.Mix(b)) == b && High(CrcModbus.Mix(b)) == 0;
    assert !OddOctet(0);
  }

  lemma CcittKeepsParity()
    ensures KeepsParity(CrcCcitt.CCITT)
  {
    hide OddWord, OddOctet, CrcCcitt.Shift, CrcCcitt.Mix;
    forall c ensures OddWord(CrcCcitt.Shift(c)) == OddWord(c) { CcittBit(c); }
    forall b ensures OddWord(CrcCcitt.Mix(b)) == OddOctet(b) { MixParity(b); }
  }

  lemma ModbusKeepsParity()
    ensures KeepsParity(CrcModbus.MODBUS)
  {
    hide OddWord, OddOctet, CrcModbus.Shift, CrcModbus.Mix;
    forall c ensures OddWord(CrcModbus.Shift(c)) == OddWord(c) { ModbusBit(c); }
    forall b ensures OddWord(CrcModbus.Mix(b)) == OddOctet(b) { MixParity(b); }
  }
}
