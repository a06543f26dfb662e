/**
 Machine bytes. The protocol modules compute with byte values, so there a byte is a number;
 the CRC modules shift and exclusive-or, so there it is a bit vector.
 */
module Bytes {

  type byte = x: int | 0 <= x < 256 witness 0
  type octet = bv8
  type word = bv16

  datatype Option<+T> = None | Some(value: T)

  /** The conversion of a non-negative C `int` to `unsigned char`. */
  function Low(n: nat): byte {
    n % 256
  }

  /** The `k` lowest bits of a number, the lowest first. */
  function BitsOf(n: nat, k: nat): (x: seq<bool>)
    ensures |x| == k
  {
    if k == 0 then [] else [n % 2 == 1] + BitsOf(n / 2, k - 1)
  }

  function Number(x: seq<bool>): nat {
    if x == [] then 0 else (if x[0] then 1 else 0) + 2 * Number(x[1..])
  }

  function Power(k: nat): nat {
    if k == 0 then 1 else 2 * Power(k - 1)
  }

  lemma {:induction false} NumberOfBits(n: nat, k: nat)
    requires n < Power(k)
    ensures Number(BitsOf(n, k)) == n
  {
    if k > 0 {
      NumberOfBits(n / 2, k - 1);
    }
  }

  lemma {:induction false} BitsOfNumber(x: seq<bool>)
    ensures BitsOf(Number(x), |x|) == x
    ensures Number(x) < Power(|x|)
  {
    if x != [] {
      BitsOfNumber(x[1..]);
    }
  }

  function OctetBits(o: octet): (x: seq<bool>)
    ensures |x| == 8
  {
    [o & 0x01 != 0, o & 0x02 != 0, o & 0x04 != 0, o & 0x08 != 0,
     o & 0x10 != 0, o & 0x20 != 0, o & 0x40 != 0, o & 0x80 != 0]
  }

  function Assembled(x: seq<bool>): octet
    requires |x| == 8
  {
    (if x[0] then 0x01 else 0) | (if x[1] then 0x02 else 0) | (if x[2] then 0x04 else 0) | (if x[3] then 0x08 else 0)
    | (if x[4] then 0x10 else 0) | (if x[5] then 0x20 else 0) | (if x[6] then 0x40 else 0) | (if x[7] then 0x80 else 0)
  }

  lemma AssembledBits(o: octet)
    ensures Assembled(OctetBits(o)) == o
  {
  }

  lemma BitsAssembled(x: seq<bool>)
    requires |x| == 8
    ensures OctetBits(Assembled(x)) == x
  {
  }

  lemma ByteRange()
    ensures Power(8) == 256
  {
    assert Power(4) == 16;
    assert Power(6) == 64;
  }

  /** The bit vector of the same eight bits, and back. */
  function ToOctet(b: byte): octet {
    Assembled(BitsOf(b, 8))
  }

  function FromOctet(o: octet): byte {
    BitsOfNumber(OctetBits(o));
    ByteRange();
    Number(OctetBits(o))
  }

  lemma ByteRoundTrip(b: byte)
    ensures FromOctet(ToOctet(b)) == b
  {
    hide BitsOf, OctetBits, Assembled;
    ByteRange();
    BitsAssembled(BitsOf(b, 8));
    NumberOfBits(b, 8);
  }

  lemma OctetRoundTrip(o: octet)
    ensures ToOctet(FromOctet(o)) == o
  {
    hide BitsOf, OctetBits, Assembled;
    BitsOfNumber(OctetBits(o));
    AssembledBits(o);
  }

  function Octets(s: seq<byte>): (o: seq<octet>)
    ensures |o| == |s|
  {
    seq(|s|, i requires 0 <= i < |s| => ToOctet(s[i]))
  }

  lemma OctetsInjective(s: seq<byte>, t: seq<byte>)
    requires Octets(s) == Octets(t)
    ensures s == t
  {
    assert |s| == |Octets(s)| == |t|;
    forall i | 0 <= i < |s| ensures s[i] == t[i] {
      assert Octets(s)[i] == Octets(t)[i];
      ByteRoundTrip(s[i]);
      ByteRoundTrip(t[i]);
    }
  }

  function Zeros(n: nat): (z: seq<byte>)
    ensures |z| == n
  {
    seq(n, _ => 0)
  }
}
