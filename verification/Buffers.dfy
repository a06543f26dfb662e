/** The growable byte buffer of buffer.h: a queue of bytes at the front of one block of memory. */
module Buffers {
  import opened Bytes
  import opened Utility

  const INT_MAX := 0x7FFF_FFFF
  const DEFAULT_SIZE := 256

  /** The capacity after `realloc(n)`; the source multiplies C `int` values. */
  function GrownSize(size: nat, n: nat): nat
    requires size > 0
  {
    size * RoundUp(n / size + 2)
  }

  class Buffer {
    var buf: array<byte>
    var maxSize: int
    var curPos: int

    ghost predicate Valid()
      reads this
    {
      0 < maxSize <= INT_MAX && buf.Length == maxSize && 0 <= curPos <= maxSize
    }

    /** The bytes held, oldest first. */
    function Contents(): (s: seq<byte>)
      requires Valid()
      reads this, buf
      ensures |s| == curPos
    {
      buf[..curPos]
    }

    function FreeSize(): int
      requires Valid()
      reads this
    {
      maxSize - curPos
    }

    constructor (initSize: int)
      requires 0 < initSize <= INT_MAX
      ensures Valid() && fresh(buf)
      ensures maxSize == initSize && Contents() == []
    {
      curPos := 0;
      maxSize := initSize;
      buf := new byte[initSize];
    }

    /** The copy constructor: same capacity, same bytes, other memory. */
    constructor Copy(other: Buffer)
      requires other.Valid()
      ensures Valid() && fresh(buf)
      ensures maxSize == other.maxSize && Contents() == other.Contents()
    {
      curPos := other.curPos;
      maxSize := other.maxSize;
      var b := new byte[other.maxSize];
      forall i | 0 <= i < other.curPos {
        b[i] := other.buf[i];
      }
      buf := b;
    }

    /** `realloc`: more than `n` bytes become free and nothing held is lost. */
    method Realloc(n: nat) returns (size: int)
      requires Valid()
      requires GrownSize(maxSize, n) <= INT_MAX
      modifies this`buf, this`maxSize
      ensures Valid() && fresh(buf)
      ensures Contents() == old(Contents())
      ensures size == maxSize == GrownSize(old(maxSize), n)
      ensures FreeSize() > n
    {
      var quotient := n / maxSize + 2;
      FactorFits(maxSize, quotient);
      RoomEnough(maxSize, n);
      var factor := NextPowOf2(quotient);
      RoundUpIsLeast(quotient, factor);
      var grown := maxSize * factor;
      var b := new byte[grown];
      forall i | 0 <= i < maxSize {
        b[i] := buf[i];
      }
      assert b[..curPos] == buf[..curPos];
      buf := b;
      maxSize := grown;
      size := maxSize;
    }

    /** `put`: the bytes go behind everything held. */
    method Put(data: seq<byte>) returns (n: int)
      requires Valid()
      requires curPos + |data| > maxSize ==> GrownSize(maxSize, curPos + |data|) <= INT_MAX
      modifies this, buf
      ensures Valid() && (buf == old(buf) || fresh(buf))
      ensures n == |data|
      ensures Contents() == old(Contents()) + data
      ensures maxSize == if old(curPos) + |data| > old(maxSize)
                         then GrownSize(old(maxSize), old(curPos) + |data|) else old(maxSize)
    {
      if curPos + |data| > maxSize {
        var _ := Realloc(curPos + |data|);
      }
      Write(data);
      MovePos(|data|);
      n := |data|;
    }

    /** Writing through the raw pointer `free_space()`: the bytes do not count as held yet. */
    method Write(data: seq<byte>)
      requires Valid() && |data| <= FreeSize()
      modifies buf
      ensures buf[..curPos] == old(buf[..curPos])
      ensures buf[curPos..curPos + |data|] == data
    {
      var at := curPos;
      forall i | 0 <= i < |data| {
        buf[at + i] := data[i];
      }
    }

    /** `move_pos`: bytes written behind the contents now count as held. */
    method MovePos(n: int)
      requires Valid() && 0 <= curPos + n <= maxSize
      modifies this`curPos
      ensures Valid()
      ensures curPos == old(curPos) + n && Contents() == old(buf[..curPos + n])
    {
      curPos := curPos + n;
    }

    /** `memmove` of the tail to the front, shared by `get`, `del` and `move_buf`. */
    method MoveDown(n: int)
      requires Valid() && 0 <= n <= curPos
      modifies this`curPos, buf
      ensures Valid() && Contents() == old(Contents())[n..]
    {
      var held := curPos;
      forall i | 0 <= i < held - n {
        buf[i] := buf[i + n];
      }
      curPos := curPos - n;
    }

    /** `get`: up to `len` bytes are taken from the front. */
    method Get(len: nat) returns (data: seq<byte>)
      requires Valid()
      modifies this`curPos, buf
      ensures Valid()
      ensures data + Contents() == old(Contents())
      ensures |data| == if len < old(curPos) then len else old(curPos)
    {
      var n := if curPos < len then curPos else len;
      if n == 0 {
        return [];
      }
      data := buf[..n];
      MoveDown(n);
    }

    /** `del`: up to `len` bytes are dropped from the front; a negative count drops none. */
    method Del(len: int) returns (n: int)
      requires Valid()
      modifies this`curPos, buf
      ensures Valid()
      ensures n == if len <= 0 then 0 else if len < old(curPos) then len else old(curPos)
      ensures Contents() == old(Contents())[n..]
    {
      n := if curPos < len then curPos else len;
      if n <= 0 {
        return 0;
      }
      MoveDown(n);
    }

    /** `move_buf`: exactly `n` bytes are dropped. */
    method MoveBuf(n: int)
      requires Valid() && 0 <= n <= curPos
      modifies this`curPos, buf
      ensures Valid() && Contents() == old(Contents())[n..]
    {
      MoveDown(n);
    }

    method Clear()
      requires Valid()
      modifies this`curPos
      ensures Valid() && Contents() == []
    {
      curPos := 0;
    }
  }

  // ----- capacity arithmetic -----

  /** The factor itself is a word the bit-smearing can produce. */
  lemma FactorFits(size: nat, x: nat)
    requires 0 < size && 0 < x && size * RoundUp(x) <= INT_MAX
    ensures x <= WORD_COUNT / 2
  {
    TimesMonotone(RoundUp(x), 1, size);
  }

  lemma RoomEnough(size: nat, n: nat)
    requires size > 0
    ensures GrownSize(size, n) >= size * (n / size + 2) > n + size
  {
    TimesMonotone(size, n / size + 2, RoundUp(n / size + 2));
  }

  /** A capacity that starts as a power of two stays one. */
  lemma GrownStaysPow2(size: nat, n: nat)
    requires IsPow2(size)
    ensures IsPow2(GrownSize(size, n))
  {
    hide RoundUp, Pow2;
    var x := n / size + 2;
    RoundUpIsLeast(x, RoundUp(x));
    var j: nat :| size == Pow2(j);
    var k: nat :| RoundUp(x) == Pow2(k);
    Pow2Sum(j, k);
  }

  /** For such capacities the C multiplication overflows exactly when the rounded need passes 2^30. */
  lemma OverflowExactly(size: nat, n: nat)
    requires IsPow2(size)
    ensures GrownSize(size, n) <= INT_MAX <==> size * (n / size + 2) <= 0x4000_0000
  {
    hide RoundUp, Pow2;
    var x := n / size + 2;
    var grown := GrownSize(size, n);
    RoomEnough(size, n);
    GrownStaysPow2(size, n);
    if grown <= INT_MAX {
      TopPower(grown);
    }
    if size * x <= 0x4000_0000 {
      var j: nat :| size == Pow2(j);
      FactorTop(j, x);
    }
  }

  /** Among `int` values 2^30 is the greatest power of two. */
  lemma TopPower(p: nat)
    requires IsPow2(p) && p <= INT_MAX
    ensures p <= 0x4000_0000
  {
    PowersUpToWord();
    var k: nat :| p == Pow2(k);
    if k <= 30 {
      Pow2Monotone(k, 30);
    } else {
      Pow2Monotone(31, k);
    }
  }

  lemma FactorTop(j: nat, x: nat)
    requires x > 0 && Pow2(j) * x <= 0x4000_0000
    ensures Pow2(j) * RoundUp(x) <= 0x4000_0000
  {
    hide Pow2, RoundUp;
    var top := FactorBelow(j, x);
    RoundUpAtMost(x, top);
    TimesMonotone(Pow2(j), RoundUp(x), top);
  }

  lemma FactorBelow(j: nat, x: nat) returns (top: nat)
    requires x > 0 && Pow2(j) * x <= 0x4000_0000
    ensures IsPow2(top) && x <= top && Pow2(j) * top == 0x4000_0000
  {
    hide Pow2;
    PowersUpToWord();
    if j > 30 {
      Pow2Monotone(31, j);
      TimesMonotone(Pow2(j), 1, x);
    }
    assert Pow2(30) == 0x4000_0000 by { Pow2Sum(15, 15); Pow2Sum(15, 16); }
    Pow2Sum(j, 30 - j);
    top := Pow2(30 - j);
    if x > top {
      TimesMonotone(Pow2(j), top + 1, x);
    }
  }

  lemma RoundUpAtMost(x: nat, p: nat)
    requires x > 0 && IsPow2(p) && x <= p
    ensures RoundUp(x) <= p
  {
    RoundUpIsLeast(x, RoundUp(x));
  }

  /** A buffer that is asked for at most `limit` bytes while it holds at most 258. */
  function Capacity(limit: nat): nat {
    6 * limit + 1032
  }

  lemma GrowthBounded(size: nat, held: nat, n: nat)
    requires size > 0 && held <= 258 && held <= size && size - held < n
    ensures GrownSize(size, n) <= Capacity(n)
  {
    hide RoundUp;
    var x := n / size + 2;
    RoundUpAtMostTwice(x);
    TimesMonotone(size, RoundUp(x), 2 * x);
    QuotientTimes(n, size);
    assert size * (2 * x) == 2 * (size * (n / size)) + 4 * size;
  }

  lemma RoundUpAtMostTwice(x: nat)
    requires x > 0
    ensures RoundUp(x) <= 2 * x
  {
  }

  lemma QuotientTimes(n: nat, d: nat)
    requires d > 0
    ensures d * (n / d) <= n
  {
  }
}
