/** Polynomials over GF(2), encoded as naturals: bit i is the coefficient of x^i.
    Addition is exclusive-or on unbounded naturals, as it is on Python integers. */
module Gf2 {

  function Xor(a: nat, b: nat): nat {
    if a == 0 then b else 2 * Xor(a / 2, b / 2) + (if a % 2 == b % 2 then 0 else 1)
  }

  /** a times x^k. */
  function Shl(a: nat, k: nat): nat {
    if k == 0 then a else 2 * Shl(a, k - 1)
  }

  /** The product of q and g without carries. */
  function ClMul(q: nat, g: nat): nat {
    if q == 0 then 0 else Xor(2 * ClMul(q / 2, g), if q % 2 == 1 then g else 0)
  }

  lemma {:induction false} XorParts(a: nat, b: nat)
    ensures Xor(a, b) % 2 == if a % 2 == b % 2 then 0 else 1
    ensures Xor(a, b) / 2 == Xor(a / 2, b / 2)
  {
  }

  lemma SameParts(a: nat, b: nat)
    requires a / 2 == b / 2 && a % 2 == b % 2
    ensures a == b
  {
  }

  lemma {:induction false} XorComm(a: nat, b: nat)
    ensures Xor(a, b) == Xor(b, a)
    decreases a + b
  {
    XorZero(a);
    XorZero(b);
    if a > 0 && b > 0 {
      XorComm(a / 2, b / 2);
    }
  }

  lemma {:induction false} XorZero(a: nat)
    ensures Xor(a, 0) == a
  {
    if a > 0 {
      XorZero(a / 2);
    }
  }

  lemma {:induction false} XorSelf(a: nat)
    ensures Xor(a, a) == 0
  {
    if a > 0 {
      XorSelf(a / 2);
    }
  }

  lemma {:induction false} XorAssoc(a: nat, b: nat, c: nat)
    ensures Xor(Xor(a, b), c) == Xor(a, Xor(b, c))
  {
    if a > 0 {
      XorParts(a, b);
      XorParts(Xor(a, b), c);
      XorParts(b, c);
      XorParts(a, Xor(b, c));
      XorAssoc(a / 2, b / 2, c / 2);
      SameParts(Xor(Xor(a, b), c), Xor(a, Xor(b, c)));
    }
  }

  /** (a + b) + (c + d) == (a + c) + (b + d). */
  lemma XorSwap(a: nat, b: nat, c: nat, d: nat)
    ensures Xor(Xor(a, b), Xor(c, d)) == Xor(Xor(a, c), Xor(b, d))
  {
    calc {
      Xor(Xor(a, b), Xor(c, d));
      { XorAssoc(a, b, Xor(c, d)); XorAssoc(b, c, d); }
      Xor(a, Xor(Xor(b, c), d));
      { XorComm(b, c); XorAssoc(c, b, d); }
      Xor(a, Xor(c, Xor(b, d)));
      { XorAssoc(a, c, Xor(b, d)); }
      Xor(Xor(a, c), Xor(b, d));
    }
  }

  /** Adding b twice leaves a. */
  lemma XorCancel(a: nat, b: nat)
    ensures Xor(Xor(a, b), b) == a
  {
    XorAssoc(a, b, b);
    XorSelf(b);
    XorZero(a);
  }

  lemma XorDouble(a: nat, b: nat)
    ensures Xor(2 * a, 2 * b) == 2 * Xor(a, b)
  {
    XorParts(2 * a, 2 * b);
  }

  lemma {:induction false} XorShl(a: nat, b: nat, k: nat)
    ensures Xor(Shl(a, k), Shl(b, k)) == Shl(Xor(a, b), k)
  {
    if k > 0 {
      XorShl(a, b, k - 1);
      XorDouble(Shl(a, k - 1), Shl(b, k - 1));
    }
  }

  lemma {:induction false} ShlAdd(a: nat, j: nat, k: nat)
    ensures Shl(Shl(a, j), k) == Shl(a, j + k)
  {
    if k > 0 {
      ShlAdd(a, j, k - 1);
    }
  }

  lemma {:induction false} ShlZero(k: nat)
    ensures Shl(0, k) == 0
  {
    if k > 0 {
      ShlZero(k - 1);
    }
  }

  /** Addition cannot raise the degree. */
  lemma {:induction false} XorBound(a: nat, b: nat, k: nat)
    requires a < Shl(1, k) && b < Shl(1, k)
    ensures Xor(a, b) < Shl(1, k)
  {
    if k > 0 {
      XorParts(a, b);
      XorBound(a / 2, b / 2, k - 1);
    }
  }

  /** Adding a polynomial of degree below k to a multiple of x^k only fills in the low bits. */
  lemma {:induction false} XorLow(a: nat, b: nat, k: nat)
    requires a < Shl(1, k)
    ensures Xor(Shl(b, k), a) == Shl(b, k) + a
  {
    if k == 0 {
      XorZero(b);
    } else {
      XorParts(Shl(b, k), a);
      XorLow(a / 2, b, k - 1);
      SameParts(Xor(Shl(b, k), a), Shl(b, k) + a);
    }
  }

  /** A high summand of degree at least k survives adding anything of degree below k. */
  lemma {:induction false} XorHigh(a: nat, b: nat, k: nat)
    requires a >= Shl(1, k) && b < Shl(1, k)
    ensures Xor(a, b) >= Shl(1, k)
  {
    if k == 0 {
      XorZero(a);
    } else {
      XorParts(a, b);
      XorHigh(a / 2, b / 2, k - 1);
    }
  }

  /** Adding two polynomials of degree exactly k cancels the leading term. */
  lemma {:induction false} XorCancelTop(a: nat, b: nat, k: nat)
    requires Shl(1, k) <= a < Shl(1, k + 1) && Shl(1, k) <= b < Shl(1, k + 1)
    ensures Xor(a, b) < Shl(1, k)
  {
    if k > 0 {
      XorParts(a, b);
      XorCancelTop(a / 2, b / 2, k - 1);
    }
  }

  lemma ClMulDouble(q: nat, g: nat)
    ensures ClMul(2 * q, g) == 2 * ClMul(q, g)
  {
    XorZero(2 * ClMul(q, g));
  }

  lemma {:induction false} ClMulShl(q: nat, g: nat, k: nat)
    ensures ClMul(Shl(q, k), g) == Shl(ClMul(q, g), k)
  {
    if k > 0 {
      ClMulShl(q, g, k - 1);
      ClMulDouble(Shl(q, k - 1), g);
    }
  }

  lemma {:induction false} ClMulXor(p: nat, q: nat, g: nat)
    ensures ClMul(Xor(p, q), g) == Xor(ClMul(p, g), ClMul(q, g))
    decreases p + q
  {
    if p == 0 {
    } else if q == 0 {
      XorZero(p);
      XorZero(ClMul(p, g));
    } else {
      var low := (x: nat) => if x % 2 == 1 then g else 0;
      XorParts(p, q);
      calc {
        Xor(ClMul(p, g), ClMul(q, g));
        Xor(Xor(2 * ClMul(p / 2, g), low(p)), Xor(2 * ClMul(q / 2, g), low(q)));
        { XorSwap(2 * ClMul(p / 2, g), low(p), 2 * ClMul(q / 2, g), low(q)); }
        Xor(Xor(2 * ClMul(p / 2, g), 2 * ClMul(q / 2, g)), Xor(low(p), low(q)));
        { XorDouble(ClMul(p / 2, g), ClMul(q / 2, g)); ClMulXor(p / 2, q / 2, g); }
        Xor(2 * ClMul(Xor(p, q) / 2, g), Xor(low(p), low(q)));
        { XorSelf(g); XorZero(g); }
        Xor(2 * ClMul(Xor(p, q) / 2, g), low(Xor(p, q)));
      }
      ClMulStep(Xor(p, q), g);
    }
  }

  lemma ClMulOne(g: nat)
    ensures ClMul(1, g) == g
  {
    assert ClMul(1, g) == Xor(2 * ClMul(0, g), g);
  }

  lemma ClMulStep(q: nat, g: nat)
    ensures ClMul(q, g) == Xor(2 * ClMul(q / 2, g), if q % 2 == 1 then g else 0)
  {
  }

  /** A nonzero multiple of a polynomial of degree k has degree at least k. */
  lemma {:induction false} ClMulDegree(q: nat, g: nat, k: nat)
    requires q > 0 && Shl(1, k) <= g < Shl(1, k + 1)
    ensures ClMul(q, g) >= Shl(1, k)
  {
    if q == 1 {
      assert ClMul(1, g) == Xor(2 * ClMul(0, g), g) == g;
    } else {
      ClMulDegree(q / 2, g, k);
      XorHigh(2 * ClMul(q / 2, g), if q % 2 == 1 then g else 0, k + 1);
    }
  }

  /** An odd generator shares no factor with x. */
  lemma ClMulParity(q: nat, g: nat)
    requires g % 2 == 1
    ensures ClMul(q, g) % 2 == q % 2
  {
    if q > 0 {
      XorParts(2 * ClMul(q / 2, g), if q % 2 == 1 then g else 0);
    }
  }
}
