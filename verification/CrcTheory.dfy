/**
 What the two CRC codes of the repository have in common: a one-bit division step that is
 linear and injective, applied eight times after a byte has been mixed into the remainder.
 */
module CrcTheory {
  import opened Bytes

  /** Exclusive or, named so that proofs can treat it as an opaque operation. */
  function Xor(a: word, b: word): word {
    a ^ b
  }

  lemma XorIs(a: word, b: word)
    ensures Xor(a, b) == a ^ b
  {
  }

  function Iterate(f: word -> word, n: nat, c: word): word {
    if n == 0 then c else f(Iterate(f, n - 1, c))
  }

  lemma IterateMore(f: word -> word, n: nat, c: word)
    ensures Iterate(f, 0, c) == c
    ensures Iterate(f, n + 1, c) == f(Iterate(f, n, c))
  {
  }

  /** `shift` divides by one bit; `mix` places a byte where the division consumes it. */
  datatype Code = Code(shift: word -> word, mix: octet -> word) {

    function Eight(c: word): word {
      Iterate(shift, 8, c)
    }

    function Step(c: word, b: octet): word {
      Eight(Xor(c, mix(b)))
    }

    /** The remainder after the bytes of `s`, continued from the remainder `c`. */
    function Remainder(c: word, s: seq<octet>): word {
      if s == [] then c else Step(Remainder(c, s[..|s| - 1]), s[|s| - 1])
    }

    /** The facts about single bits and bytes that every result below rests on. */
    ghost predicate Sound() {
      && (forall c, d :: shift(Xor(c, d)) == Xor(shift(c), shift(d)))
      && (forall c, d :: shift(c) == shift(d) ==> c == d)
      && (forall a, b :: mix(a ^ b) == Xor(mix(a), mix(b)))
      && (forall a, b :: mix(a) == mix(b) ==> a == b)
      && (forall a, b :: Eight(mix(a)) == mix(b) ==> a == 0)
    }
  }

  /** Damage confined to one byte, or to two adjacent bytes. */
  ghost predicate DamagedAt(m: seq<octet>, m': seq<octet>, j: nat) {
    && |m| == |m'|
    && m != m'
    && forall i | 0 <= i < |m| && i != j && i != j + 1 :: m[i] == m'[i]
  }

  // `Sound` quantifies over all words; the lemmas below hide it and take single instances.

  lemma LinearAt(k: Code, c: word, d: word)
    requires k.Sound()
    ensures k.shift(Xor(c, d)) == Xor(k.shift(c), k.shift(d))
  {
  }

  lemma InjectiveAt(k: Code, c: word, d: word)
    requires k.Sound()
    ensures k.shift(c) == k.shift(d) ==> c == d
  {
  }

  lemma MixAt(k: Code, a: octet, b: octet)
    requires k.Sound()
    ensures k.mix(a ^ b) == Xor(k.mix(a), k.mix(b))
    ensures k.mix(a) == k.mix(b) ==> a == b
    ensures k.Eight(k.mix(a)) == k.mix(b) ==> a == 0
  {
  }

  lemma {:induction false} IterateLinear(k: Code, n: nat, c: word, d: word)
    requires k.Sound()
    ensures Iterate(k.shift, n, Xor(c, d)) == Xor(Iterate(k.shift, n, c), Iterate(k.shift, n, d))
  {
    hide Code.Sound, Xor;
    if n > 0 {
      IterateLinear(k, n - 1, c, d);
      LinearAt(k, Iterate(k.shift, n - 1, c), Iterate(k.shift, n - 1, d));
    }
  }

  lemma {:induction false} IterateInjective(k: Code, n: nat, c: word, d: word)
    requires k.Sound()
    requires Iterate(k.shift, n, c) == Iterate(k.shift, n, d)
    ensures c == d
  {
    hide Code.Sound, Xor;
    if n > 0 {
      InjectiveAt(k, Iterate(k.shift, n - 1, c), Iterate(k.shift, n - 1, d));
      IterateInjective(k, n - 1, c, d);
    }
  }

  lemma XorCancels(a: word, b: word, c: word)
    ensures Xor(a, c) == Xor(b, c) ==> a == b
    ensures Xor(c, a) == Xor(c, b) ==> a == b
  {
  }

  lemma BitsMove(a: word, b: word, c: word, d: word)
    requires a ^ b == c ^ d
    ensures a ^ c == b ^ d
  {
  }

  lemma XorMoves(a: word, b: word, c: word, d: word)
    requires Xor(a, b) == Xor(c, d)
    ensures Xor(a, c) == Xor(b, d)
  {
    BitsMove(a, b, c, d);
  }

  lemma XorRegroups(c: word, a: word, b: word)
    ensures Xor(Xor(c, a), Xor(c, b)) == Xor(a, b)
  {
    var t, u := c ^ a, c ^ b;
    assert t ^ u == a ^ b;
    assert Xor(c, a) == t;
    assert Xor(c, b) == u;
  }

  lemma StepInjective(k: Code, c: word, d: word, b: octet)
    requires k.Sound()
    requires k.Step(c, b) == k.Step(d, b)
    ensures c == d
  {
    hide Code.Sound, Iterate, Xor;
    IterateInjective(k, 8, Xor(c, k.mix(b)), Xor(d, k.mix(b)));
    XorCancels(c, d, k.mix(b));
  }

  lemma ByteInjective(k: Code, c: word, a: octet, b: octet)
    requires k.Sound()
    requires k.Step(c, a) == k.Step(c, b)
    ensures a == b
  {
    hide Code.Sound, Iterate, Xor;
    IterateInjective(k, 8, Xor(c, k.mix(a)), Xor(c, k.mix(b)));
    MixAt(k, a, b);
    XorCancels(k.mix(a), k.mix(b), c);
  }

  /** Two bytes are recovered from the remainder they leave: no two pairs collide. */
  lemma TwoBytesInjective(k: Code, c: word, a: octet, b: octet, a': octet, b': octet)
    requires k.Sound()
    requires k.Step(k.Step(c, a), b) == k.Step(k.Step(c, a'), b')
    ensures a == a' && b == b'
  {
    hide Code.Sound, Iterate, Xor;
    var x, x' := k.Step(c, a), k.Step(c, a');
    assert Xor(x, k.mix(b)) == Xor(x', k.mix(b')) by {
      IterateInjective(k, 8, Xor(x, k.mix(b)), Xor(x', k.mix(b')));
    }
    assert k.Eight(k.mix(a ^ a')) == k.mix(b ^ b') by {
      XorMoves(x, k.mix(b), x', k.mix(b'));
      IterateLinear(k, 8, Xor(c, k.mix(a)), Xor(c, k.mix(a')));
      XorRegroups(c, k.mix(a), k.mix(a'));
      MixAt(k, a, a');
      MixAt(k, b, b');
    }
    MixAt(k, a ^ a', b ^ b');
    SameByte(a, a');
    ByteInjective(k, x, b, b');
  }

  lemma SameByte(a: octet, b: octet)
    ensures a ^ b == 0 ==> a == b
  {
  }

  lemma ThreeBytes(k: Code, c: word, x: octet, y: octet, z: octet)
    ensures k.Remainder(c, [x, y, z]) == k.Step(k.Step(k.Step(c, x), y), z)
  {
    hide Iterate, Code.Step;
    assert [x, y, z][..2] == [x, y] && [x, y][..1] == [x] && [x][..0] == [];
    assert k.Remainder(c, [x]) == k.Step(k.Remainder(c, []), x);
    assert k.Remainder(c, [x, y]) == k.Step(k.Remainder(c, [x]), y);
  }

  lemma {:induction false} RemainderConcat(k: Code, c: word, s: seq<octet>, t: seq<octet>)
    ensures k.Remainder(c, s + t) == k.Remainder(k.Remainder(c, s), t)
  {
    hide Iterate, Xor;
    if t == [] {
      assert s + t == s;
    } else {
      RemainderConcat(k, c, s, t[..|t| - 1]);
      assert (s + t)[..|s + t| - 1] == s + t[..|t| - 1];
    }
  }

  lemma {:induction false} RemainderInjective(k: Code, c: word, d: word, s: seq<octet>)
    requires k.Sound()
    requires k.Remainder(c, s) == k.Remainder(d, s)
    ensures c == d
  {
    hide Code.Sound, Iterate, Xor;
    if s != [] {
      StepInjective(k, k.Remainder(c, s[..|s| - 1]), k.Remainder(d, s[..|s| - 1]), s[|s| - 1]);
      RemainderInjective(k, c, d, s[..|s| - 1]);
    }
  }

  lemma RemainderOfOne(k: Code, c: word, s: seq<octet>)
    requires |s| == 1
    ensures k.Remainder(c, s) == k.Step(c, s[0])
  {
    assert s[..0] == [];
  }

  lemma RemainderOfTwo(k: Code, c: word, s: seq<octet>)
    requires |s| == 2
    ensures k.Remainder(c, s) == k.Step(k.Step(c, s[0]), s[1])
  {
    RemainderOfOne(k, c, s[..1]);
  }

  lemma WindowInjective(k: Code, c: word, w: seq<octet>, w': seq<octet>)
    requires k.Sound()
    requires |w| == |w'| && 1 <= |w| <= 2
    requires k.Remainder(c, w) == k.Remainder(c, w')
    ensures w == w'
  {
    hide Code.Sound, Iterate, Xor;
    if |w| == 1 {
      RemainderOfOne(k, c, w);
      RemainderOfOne(k, c, w');
      ByteInjective(k, c, w[0], w'[0]);
    } else {
      RemainderOfTwo(k, c, w);
      RemainderOfTwo(k, c, w');
      TwoBytesInjective(k, c, w[0], w[1], w'[0], w'[1]);
    }
  }

  /** Damage to one byte or two adjacent bytes changes the remainder, whatever the length. */
  lemma DamageDetected(k: Code, c: word, m: seq<octet>, m': seq<octet>, j: nat)
    requires k.Sound()
    requires DamagedAt(m, m', j)
    ensures k.Remainder(c, m) != k.Remainder(c, m')
  {
    hide Code.Sound, Xor;
    var e := if j + 2 <= |m| then j + 2 else |m|;
    var p, w, w', t := m[..j], m[j..e], m'[j..e], m[e..];
    assert m == p + w + t;
    assert m' == p + w' + t;
    RemainderConcat(k, c, p + w, t);
    RemainderConcat(k, c, p, w);
    RemainderConcat(k, c, p + w', t);
    RemainderConcat(k, c, p, w');
    if k.Remainder(c, m) == k.Remainder(c, m') {
      RemainderInjective(k, k.Remainder(c, p + w), k.Remainder(c, p + w'), t);
      WindowInjective(k, k.Remainder(c, p), w, w');
    }
  }

  /**
   Two bytes `own` that drive the remainder of `m` to zero are the only two that do:
   a receiver may check the remainder of message and tail together.
   */
  lemma ResidueUnique(k: Code, c: word, m: seq<octet>, own: seq<octet>, tail: seq<octet>)
    requires k.Sound()
    requires |own| == 2 && |tail| == 2
    requires k.Step(k.Step(k.Remainder(c, m), own[0]), own[1]) == 0
    ensures k.Remainder(c, m + tail) == 0 <==> tail == own
  {
    hide Code.Sound, Iterate, Xor;
    var r := k.Remainder(c, m);
    RemainderConcat(k, c, m, tail);
    RemainderOfTwo(k, r, tail);
    if k.Remainder(c, m + tail) == 0 {
      TwoBytesInjective(k, r, tail[0], tail[1], own[0], own[1]);
    }
  }
}
