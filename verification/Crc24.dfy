/** The armour checksum of section 6.1 of RFC 4880, computed by the two nested loops
    of scripts/fleet_seams.py, against the polynomial division it stands for. */
module Crc24 {
  import opened Gf2

  const INIT: nat := 0xB704CE
  const POLY: nat := 0x1864CFB
  const TOP: nat := 0x1000000

  type Byte = n: nat | n < 256

  /** The message as one polynomial, first byte highest. */
  function Message(data: seq<Byte>): nat {
    if data == [] then 0 else Shl(Message(data[..|data| - 1]), 8) + data[|data| - 1]
  }

  /** INIT x^(8n) + M x^24. */
  function Dividend(data: seq<Byte>): nat {
    Xor(Shl(INIT, 8 * |data|), Shl(Message(data), 24))
  }

  ghost predicate Congruent(a: nat, b: nat) {
    exists q: nat :: a == Xor(ClMul(q, POLY), b)
  }

  /** r is what is left of d after dividing by the generator. */
  ghost predicate IsRemainder(d: nat, r: nat) {
    r < TOP && Congruent(d, r)
  }

  lemma CongruentIntro(a: nat, b: nat, q: nat)
    requires a == Xor(ClMul(q, POLY), b)
    ensures Congruent(a, b)
  {
  }

  lemma CongruentRefl(a: nat)
    ensures Congruent(a, a)
  {
    CongruentIntro(a, a, 0);
  }

  lemma CongruentXor(a: nat, b: nat, c: nat, d: nat)
    requires Congruent(a, b) && Congruent(c, d)
    ensures Congruent(Xor(a, c), Xor(b, d))
  {
    var p: nat :| a == Xor(ClMul(p, POLY), b);
    var q: nat :| c == Xor(ClMul(q, POLY), d);
    XorSwap(ClMul(p, POLY), b, ClMul(q, POLY), d);
    ClMulXor(p, q, POLY);
    CongruentIntro(Xor(a, c), Xor(b, d), Xor(p, q));
  }

  lemma CongruentShl(a: nat, b: nat, k: nat)
    requires Congruent(a, b)
    ensures Congruent(Shl(a, k), Shl(b, k))
  {
    var q: nat :| a == Xor(ClMul(q, POLY), b);
    XorShl(ClMul(q, POLY), b, k);
    ClMulShl(q, POLY, k);
    CongruentIntro(Shl(a, k), Shl(b, k), Shl(q, k));
  }

  lemma CongruentTrans(a: nat, b: nat, c: nat)
    requires Congruent(a, b) && Congruent(b, c)
    ensures Congruent(a, c)
  {
    var p: nat :| a == Xor(ClMul(p, POLY), b);
    var q: nat :| b == Xor(ClMul(q, POLY), c);
    XorAssoc(ClMul(p, POLY), ClMul(q, POLY), c);
    ClMulXor(p, q, POLY);
    CongruentIntro(a, c, Xor(p, q));
  }

  lemma CongruentSym(a: nat, b: nat)
    requires Congruent(a, b)
    ensures Congruent(b, a)
  {
    var q: nat :| a == Xor(ClMul(q, POLY), b);
    XorComm(ClMul(q, POLY), b);
    XorCancel(b, ClMul(q, POLY));
    XorComm(a, ClMul(q, POLY));
    CongruentIntro(b, a, q);
  }

  lemma ShlByte(a: nat)
    ensures Shl(a, 8) == 256 * a && Shl(a, 16) == 65536 * a
  {
    assert forall x: nat :: Shl(x, 2) == 2 * Shl(x, 1) == 4 * x;
    ShlAdd(a, 2, 2);
    ShlAdd(a, 4, 2);
    ShlAdd(a, 6, 2);
    ShlAdd(a, 8, 2);
    ShlAdd(a, 10, 2);
    ShlAdd(a, 12, 2);
    ShlAdd(a, 14, 2);
  }

  lemma ShlConstants()
    ensures Shl(1, 24) == TOP && Shl(1, 25) == 2 * TOP && Shl(1, 8) == 256
  {
    ShlByte(1);
    ShlAdd(1, 16, 8);
    ShlByte(65536);
  }

  /** Only zero is divisible by the generator among the polynomials of degree below 24. */
  lemma SmallMultiple(d: nat)
    requires d < TOP && Congruent(d, 0)
    ensures d == 0
  {
    var q: nat :| d == Xor(ClMul(q, POLY), 0);
    XorZero(ClMul(q, POLY));
    if q > 0 {
      ShlConstants();
      ClMulDegree(q, POLY, 24);
    }
  }

  /** The remainder is unique, so IsRemainder names one checksum. */
  lemma RemainderUnique(d: nat, r: nat, s: nat)
    requires IsRemainder(d, r) && IsRemainder(d, s)
    ensures r == s
  {
    CongruentXor(d, r, d, s);
    XorSelf(d);
    CongruentSym(0, Xor(r, s));
    ShlConstants();
    XorBound(r, s, 24);
    SmallMultiple(Xor(r, s));
    XorCancel(r, s);
  }

  /** Doubling the register and cancelling bit 24 is multiplication by x. */
  lemma StepCongruent(crc: nat, next: nat)
    requires crc < TOP
    requires next == if (2 * crc / TOP) % 2 == 1 then Xor(2 * crc, POLY) else 2 * crc
    ensures next < TOP && Congruent(2 * crc, next)
  {
    hide Xor, Shl, ClMul, Congruent;
    CongruentRefl(2 * crc);
    if 2 * crc >= TOP {
      ShlConstants();
      XorCancelTop(2 * crc, POLY, 24);
      ClMulOne(POLY);
      XorCancel(2 * crc, POLY);
      XorComm(next, POLY);
      CongruentIntro(2 * crc, next, 1);
    }
  }

  /** What absorbing one more byte does to the dividend. */
  lemma DividendStep(data: seq<Byte>, b: Byte)
    ensures Dividend(data + [b]) == Shl(Xor(Dividend(data), Shl(b, 16)), 8)
  {
    var n := |data|;
    var m, m' := Message(data), Message(data + [b]);
    assert (data + [b])[..n] == data;
    assert m' == Xor(Shl(m, 8), b) by {
      ShlConstants();
      XorLow(b, m, 8);
    }
    assert Xor(Shl(m, 24), Shl(b, 16)) == Shl(m', 16) by {
      ShlAdd(m, 8, 16);
      XorShl(Shl(m, 8), b, 16);
    }
    XorAssoc(Shl(INIT, 8 * n), Shl(m, 24), Shl(b, 16));
    XorShl(Shl(INIT, 8 * n), Shl(m', 16), 8);
    ShlAdd(INIT, 8 * n, 8);
    ShlAdd(m', 16, 8);
  }

  /** Mixing one byte into the register and multiplying by x^8 keeps it the running remainder. */
  lemma ByteStep(data: seq<Byte>, b: Byte, crc: nat, next: nat)
    requires IsRemainder(Dividend(data), crc)
    requires next < TOP && Congruent(Shl(Xor(crc, 65536 * b), 8), next)
    ensures IsRemainder(Dividend(data + [b]), next)
  {
    DividendStep(data, b);
    ShlByte(b);
    CongruentRefl(Shl(b, 16));
    CongruentXor(Dividend(data), crc, Shl(b, 16), Shl(b, 16));
    CongruentShl(Xor(Dividend(data), Shl(b, 16)), Xor(crc, 65536 * b), 8);
    CongruentTrans(Dividend(data + [b]), Shl(Xor(crc, 65536 * b), 8), next);
  }

  /** One pass of the inner loop. */
  lemma BitStep(mixed: nat, j: nat, crc: nat, next: nat)
    requires crc < TOP && Congruent(Shl(mixed, j), crc)
    requires next == if (2 * crc / TOP) % 2 == 1 then Xor(2 * crc, POLY) else 2 * crc
    ensures next < TOP && Congruent(Shl(mixed, j + 1), next)
  {
    CongruentShl(Shl(mixed, j), crc, 1);
    ShlAdd(mixed, j, 1);
    assert Shl(crc, 1) == 2 * crc;
    StepCongruent(crc, next);
    CongruentTrans(Shl(mixed, j + 1), 2 * crc, next);
  }

  lemma Start()
    ensures IsRemainder(Dividend([]), INIT)
  {
    ShlZero(24);
    XorZero(INIT);
    CongruentRefl(INIT);
  }

  /** Mixing a byte into bits 16 to 23 keeps the register below 2^24. */
  lemma MixBound(crc: nat, b: Byte)
    requires crc < TOP
    ensures Xor(crc, 65536 * b) < TOP
    ensures Congruent(Shl(Xor(crc, 65536 * b), 0), Xor(crc, 65536 * b))
  {
    ShlConstants();
    XorBound(crc, 65536 * b, 24);
    CongruentRefl(Xor(crc, 65536 * b));
  }

  /** IsRemainder determines the result: see RemainderUnique. */
  method Checksum(data: seq<Byte>) returns (crc: nat)
    ensures IsRemainder(Dividend(data), crc)
  {
    hide Xor, Dividend, Congruent;
    crc := INIT;
    Start();
    assert data[..0] == [];
    for i := 0 to |data|
      invariant IsRemainder(Dividend(data[..i]), crc)
    {
      ghost var before := crc;
      var byte: nat := data[i];
      crc := Xor(crc, 65536 * byte);
      ghost var mixed := crc;
      MixBound(before, data[i]);
      for j := 0 to 8
        invariant crc < TOP && Congruent(Shl(mixed, j), crc)
      {
        ghost var prev := crc;
        crc := 2 * crc;
        if (crc / TOP) % 2 == 1 {
          crc := Xor(crc, POLY);
        }
        BitStep(mixed, j, prev, crc);
      }
      assert data[..i + 1] == data[..i] + [data[i]];
      ByteStep(data[..i], data[i], before, crc);
    }
    assert data[..|data|] == data;
    crc := crc % TOP;
  }

  /** An even multiple of the generator is twice a multiple. */
  lemma HalfMultiple(d: nat, q: nat)
    requires 2 * d == ClMul(q, POLY)
    ensures d == ClMul(q / 2, POLY)
  {
    hide ClMul;
    ClMulParity(q, POLY);
    assert q == 2 * (q / 2);
    ClMulDouble(q / 2, POLY);
  }

  /** x is invertible modulo the generator. */
  lemma {:induction false} DivideByX(d: nat, k: nat)
    requires Congruent(Shl(d, k), 0)
    ensures Congruent(d, 0)
    decreases k
  {
    hide Xor, ClMul;
    if k > 0 {
      var q: nat :| Shl(d, k) == Xor(ClMul(q, POLY), 0);
      XorZero(ClMul(q, POLY));
      HalfMultiple(Shl(d, k - 1), q);
      XorZero(ClMul(q / 2, POLY));
      CongruentIntro(Shl(d, k - 1), 0, q / 2);
      DivideByX(d, k - 1);
    }
  }

  /** Two messages of one length share a checksum only if the generator divides their difference. */
  lemma SameChecksum(a: seq<Byte>, b: seq<Byte>, r: nat)
    requires |a| == |b|
    requires IsRemainder(Dividend(a), r) && IsRemainder(Dividend(b), r)
    ensures Congruent(Xor(Message(a), Message(b)), 0)
  {
    var i := Shl(INIT, 8 * |a|);
    CongruentXor(Dividend(a), r, Dividend(b), r);
    XorSelf(r);
    XorSwap(i, Shl(Message(a), 24), i, Shl(Message(b), 24));
    XorSelf(i);
    XorShl(Message(a), Message(b), 24);
    DivideByX(Xor(Message(a), Message(b)), 24);
  }

  lemma MessageStep(data: seq<Byte>)
    requires data != []
    ensures Message(data) == 256 * Message(data[..|data| - 1]) + data[|data| - 1]
    ensures Message(data) == Xor(Shl(Message(data[..|data| - 1]), 8), data[|data| - 1])
  {
    var m := Message(data[..|data| - 1]);
    ShlByte(m);
    ShlConstants();
    XorLow(data[|data| - 1], m, 8);
  }

  lemma {:induction false} MessageBound(data: seq<Byte>)
    ensures Message(data) < Shl(1, 8 * |data|)
  {
    if data != [] {
      MessageBound(data[..|data| - 1]);
      MessageStep(data);
      ShlAdd(1, 8 * (|data| - 1), 8);
      ShlByte(Shl(1, 8 * (|data| - 1)));
    }
  }

  lemma {:induction false} MessageConcat(a: seq<Byte>, b: seq<Byte>)
    ensures Message(a + b) == Xor(Shl(Message(a), 8 * |b|), Message(b))
    decreases |b|
  {
    if b == [] {
      hide Xor;
      assert a + b == a;
      XorZero(Message(a));
    } else {
      hide Xor, Message, Shl;
      var front := b[..|b| - 1];
      assert (a + b)[..|a + b| - 1] == a + front;
      MessageConcat(a, front);
      var last: nat := b[|b| - 1];
      MessageStep(a + b);
      MessageStep(b);
      XorShl(Shl(Message(a), 8 * |front|), Message(front), 8);
      ShlAdd(Message(a), 8 * |front|, 8);
      XorAssoc(Shl(Message(a), 8 * |b|), Shl(Message(front), 8), last);
    }
  }

  lemma {:induction false} MessageInjective(a: seq<Byte>, b: seq<Byte>)
    requires |a| == |b| && Message(a) == Message(b)
    ensures a == b
  {
    if a != [] {
      MessageStep(a);
      MessageStep(b);
      MessageInjective(a[..|a| - 1], b[..|b| - 1]);
      assert a == a[..|a| - 1] + [a[|a| - 1]];
      assert b == b[..|b| - 1] + [b[|b| - 1]];
    }
  }

  lemma ZeroXor(a: nat)
    ensures Xor(0, a) == a
  {
  }

  /** Messages of up to three bytes differ below x^24. */
  lemma ShortDifference(a: seq<Byte>, b: seq<Byte>)
    requires |a| == |b| <= 3
    ensures Xor(Message(a), Message(b)) < TOP
  {
    MessageBound(a);
    MessageBound(b);
    ShlConstants();
    ShlAdd(1, 8, 8);
    XorBound(Message(a), Message(b), 24);
  }

  /** The difference of two messages with a common front and back. */
  lemma Difference(pre: seq<Byte>, a: seq<Byte>, b: seq<Byte>, post: seq<Byte>)
    requires |a| == |b|
    ensures Xor(Message(pre + a + post), Message(pre + b + post)) ==
            Shl(Xor(Message(a), Message(b)), 8 * |post|)
  {
    hide Xor, Shl, Message;
    MessageConcat(pre + a, post);
    MessageConcat(pre + b, post);
    MessageConcat(pre, a);
    MessageConcat(pre, b);
    var k := 8 * |post|;
    var p := Shl(Message(pre), 8 * |a|);
    XorSwap(Shl(Message(pre + a), k), Message(post), Shl(Message(pre + b), k), Message(post));
    XorSelf(Message(post));
    XorShl(Message(pre + a), Message(pre + b), k);
    XorSwap(p, Message(a), p, Message(b));
    XorSelf(p);
    ZeroXor(Xor(Message(a), Message(b)));
    XorZero(Shl(Xor(Message(a), Message(b)), k));
  }

  /** Every burst of errors confined to three consecutive bytes is detected. */
  lemma BurstDetected(pre: seq<Byte>, a: seq<Byte>, b: seq<Byte>, post: seq<Byte>, r: nat, s: nat)
    requires |a| == |b| <= 3 && a != b
    requires IsRemainder(Dividend(pre + a + post), r) && IsRemainder(Dividend(pre + b + post), s)
    ensures r != s
  {
    hide Xor, Shl, Message, Dividend, IsRemainder, Congruent;
    if r == s {
      SameChecksum(pre + a + post, pre + b + post, r);
      Difference(pre, a, b, post);
      var d := Xor(Message(a), Message(b));
      DivideByX(d, 8 * |post|);
      ShortDifference(a, b);
      SmallMultiple(d);
      XorCancel(Message(a), Message(b));
      ZeroXor(Message(b));
      MessageInjective(a, b);
    }
  }

  /** The three bytes the armour writes after its "=" sign. */
  function ChecksumBytes(crc: nat): (bytes: seq<Byte>)
    requires crc < TOP
    ensures |bytes| == 3 && Message(bytes) == crc
  {
    ThreeBytes(crc / 65536, crc / 256 % 256, crc % 256);
    [crc / 65536, crc / 256 % 256, crc % 256]
  }

  lemma ThreeBytes(a: Byte, b: Byte, c: Byte)
    ensures Message([a, b, c]) == 65536 * a + 256 * b + c
  {
    MessageStep([a, b, c]);
    MessageStep([a, b]);
    MessageStep([a]);
    assert [a, b, c][..2] == [a, b] && [a, b][..1] == [a] && [a][..0] == [];
    assert Message([]) == 0;
  }

  /** A message followed by three bytes has checksum zero exactly when those bytes are its own
      checksum, first byte highest. */
  lemma ResidueZero(data: seq<Byte>, tail: seq<Byte>, r: nat)
    requires |tail| == 3 && IsRemainder(Dividend(data), r)
    ensures IsRemainder(Dividend(data + tail), 0) <==> tail == ChecksumBytes(r)
  {
    hide Xor, Shl, Congruent, Message;
    var own := ChecksumBytes(r);
    var n := 8 * |data|;
    MessageConcat(data, own);
    ShlAdd(INIT, n, 24);
    XorShl(Shl(INIT, n), Shl(Message(data), 24), 24);
    XorShl(Shl(Message(data), 24), r, 24);
    XorAssoc(Shl(Shl(INIT, n), 24), Shl(Shl(Message(data), 24), 24), Shl(r, 24));
    assert Dividend(data + own) == Xor(Shl(Dividend(data), 24), Shl(r, 24));
    CongruentShl(Dividend(data), r, 24);
    CongruentRefl(Shl(r, 24));
    CongruentXor(Shl(Dividend(data), 24), Shl(r, 24), Shl(r, 24), Shl(r, 24));
    XorSelf(Shl(r, 24));
    assert IsRemainder(Dividend(data + own), 0);
    if tail != own && IsRemainder(Dividend(data + tail), 0) {
      assert data + tail + [] == data + tail && data + own + [] == data + own;
      BurstDetected(data, tail, own, [], 0, 0);
    }
  }
}
