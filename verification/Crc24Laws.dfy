/** The constants of section 6.1 of RFC 4880, and a checksum worked out bit by bit. */
module Crc24Laws {
  import opened Gf2
  import opened Crc24

  /** x^24 + x^23 + x^18 + x^17 + x^14 + x^11 + x^10 + x^7 + x^6 + x^5 + x^4 + x^3 + x + 1. */
  lemma Generator()
    ensures POLY == 0x1000000 + 0x800000 + 0x40000 + 0x20000 + 0x4000 + 0x800 + 0x400 + 0x80 + 0x40 + 0x20 + 0x10 +
                    0x8 + 0x2 + 0x1
  {
  }

  lemma Bit(a: nat, b: nat, x: nat, y: nat)
    requires x < 2 && y < 2
    ensures Xor(2 * a + x, 2 * b + y) == 2 * Xor(a, b) + if x == y then 0 else 1
  {
    XorParts(2 * a + x, 2 * b + y);
  }

  lemma OneBit(x: nat, y: nat)
    requires x < 2 && y < 2
    ensures Xor(x, y) == if x == y then 0 else 1
  {
  }

  lemma Pair(a: nat, b: nat, x: nat, y: nat)
    requires x < 4 && y < 4
    ensures Xor(4 * a + x, 4 * b + y) == 4 * Xor(a, b) + Xor(x, y)
  {
    hide Xor;
    var h, k, i, j := x / 2, y / 2, x % 2, y % 2;
    Bit(2 * a + h, 2 * b + k, i, j);
    Bit(a, b, h, k);
    Bit(h, k, i, j);
    OneBit(h, k);
    assert 4 * a + x == 2 * (2 * a + h) + i && 4 * b + y == 2 * (2 * b + k) + j;
    assert x == 2 * h + i && y == 2 * k + j;
  }

  /** One more hexadecimal digit. */
  lemma Digit(a: nat, b: nat, c: nat, x: nat, y: nat, z: nat)
    requires x < 16 && y < 16 && Xor(a, b) == c && Xor(x, y) == z
    ensures Xor(16 * a + x, 16 * b + y) == 16 * c + z
  {
    hide Xor;
    var h, k := x / 4, y / 4;
    Pair(4 * a + h, 4 * b + k, x % 4, y % 4);
    Pair(a, b, h, k);
    Pair(h, k, x % 4, y % 4);
    assert 16 * a + x == 4 * (4 * a + h) + x % 4 && 16 * b + y == 4 * (4 * b + k) + y % 4;
    assert x == 4 * h + x % 4 && y == 4 * k + y % 4;
  }

  lemma DigitXor()
    ensures Xor(0x0, 0x0) == 0x0
    ensures Xor(0x0, 0x8) == 0x8
    ensures Xor(0x0, 0xB) == 0xB
    ensures Xor(0x0, 0xF) == 0xF
    ensures Xor(0x1, 0x1) == 0x0
    ensures Xor(0x4, 0x0) == 0x4
    ensures Xor(0x4, 0x6) == 0x2
    ensures Xor(0x7, 0x6) == 0x1
    ensures Xor(0xB, 0xB) == 0x0
    ensures Xor(0xC, 0x0) == 0xC
    ensures Xor(0xC, 0x4) == 0x8
    ensures Xor(0xE, 0x0) == 0xE
    ensures Xor(0xE, 0xC) == 0x2
  {
  }

  lemma Mixed()
    ensures Xor(0xB704CE, 0xB60000) == 0x104CE
  {
    DigitXor();
    hide Xor;
    Digit(0xB, 0xB, 0x0, 0x7, 0x6, 0x1);
    Digit(0xB7, 0xB6, 0x1, 0x0, 0x0, 0x0);
    Digit(0xB70, 0xB60, 0x10, 0x4, 0x0, 0x4);
    Digit(0xB704, 0xB600, 0x104, 0xC, 0x0, 0xC);
    Digit(0xB704C, 0xB6000, 0x104C, 0xE, 0x0, 0xE);
  }

  lemma Cancelled()
    ensures Xor(0x104CE00, 0x1864CFB) == 0x8282FB
  {
    DigitXor();
    hide Xor;
    Digit(0x1, 0x1, 0x0, 0x0, 0x8, 0x8);
    Digit(0x10, 0x18, 0x8, 0x4, 0x6, 0x2);
    Digit(0x104, 0x186, 0x82, 0xC, 0x4, 0x8);
    Digit(0x104C, 0x1864, 0x828, 0xE, 0xC, 0x2);
    Digit(0x104CE, 0x1864C, 0x8282, 0x0, 0xF, 0xF);
    Digit(0x104CE0, 0x1864CF, 0x8282F, 0x0, 0xB, 0xB);
  }

  /** The checksum of no bytes is the initial value; that of the one byte B6, of which the register keeps 0104CE, is
      what eight doublings make of it, the last one past bit 24. */
  lemma WorkedChecksums()
    ensures IsRemainder(Dividend([]), 0xB704CE)
    ensures IsRemainder(Dividend([0xB6]), 0x8282FB)
  {
    hide Xor, Congruent, Dividend, Shl;
    Start();
    MixBound(0xB704CE, 0xB6);
    Mixed();
    Cancelled();
    BitStep(0x104CE, 0, 0x104CE, 0x2099C);
    BitStep(0x104CE, 1, 0x2099C, 0x41338);
    BitStep(0x104CE, 2, 0x41338, 0x82670);
    BitStep(0x104CE, 3, 0x82670, 0x104CE0);
    BitStep(0x104CE, 4, 0x104CE0, 0x2099C0);
    BitStep(0x104CE, 5, 0x2099C0, 0x413380);
    BitStep(0x104CE, 6, 0x413380, 0x826700);
    BitStep(0x104CE, 7, 0x826700, 0x8282FB);
    ByteStep([], 0xB6, 0xB704CE, 0x8282FB);
    assert [] + [0xB6] == [0xB6];
  }

  /** So the method answers just these. */
  method Examples() returns (none: nat, one: nat)
    ensures none == 0xB704CE && one == 0x8282FB
  {
    hide IsRemainder, Dividend;
    WorkedChecksums();
    none := Checksum([]);
    one := Checksum([0xB6]);
    RemainderUnique(Dividend([]), none, 0xB704CE);
    RemainderUnique(Dividend([0xB6]), one, 0x8282FB);
  }
}
