/** Bitwise operators of unsigned words, defined on naturals bit by bit, and the
    few identities that let masks and shifts be read as arithmetic. */
module Bits {

  function Pow2(n: nat): (r: nat)
    ensures r >= 1
  {
    if n == 0 then 1 else 2 * Pow2(n - 1)
  }

  function And(a: nat, b: nat): nat {
    if a == 0 || b == 0 then 0
    else (if a % 2 == 1 && b % 2 == 1 then 1 else 0) + 2 * And(a / 2, b / 2)
  }

  function Or(a: nat, b: nat): nat {
    if a == 0 then b
    else if b == 0 then a
    else (if a % 2 == 1 || b % 2 == 1 then 1 else 0) + 2 * Or(a / 2, b / 2)
  }

  function Xor(a: nat, b: nat): nat {
    if a == 0 then b
    else if b == 0 then a
    else (if a % 2 != b % 2 then 1 else 0) + 2 * Xor(a / 2, b / 2)
  }

  /** `p` is a multiple of 2^o, tested one bit at a time. */
  predicate Aligned(p: nat, o: nat) {
    o == 0 || (p % 2 == 0 && Aligned(p / 2, o - 1))
  }

  /** The C test `(p & ((1u << o) - 1)) == 0` is alignment. */
  lemma {:induction false} MaskTest(p: nat, o: nat)
    ensures And(p, Pow2(o) - 1) == 0 <==> Aligned(p, o)
  {
    hide And;
    Nothing(p, 0);
    if o > 0 {
      assert Pow2(o) - 1 == 2 * (Pow2(o - 1) - 1) + 1;
      MaskTest(p / 2, o - 1);
      AndStep(p, Pow2(o) - 1);
    }
  }

  /** Alignment is divisibility by 2^o. */
  lemma {:induction false} AlignedMultiple(p: nat, o: nat)
    requires Aligned(p, o)
    ensures p == Shr(p, o) * Pow2(o)
  {
    if o > 0 {
      AlignedMultiple(p / 2, o - 1);
      assert p == 2 * (p / 2) == 2 * (Shr(p, o) * Pow2(o - 1)) == Shr(p, o) * (2 * Pow2(o - 1));
    }
  }

  lemma {:induction false} MultipleAligned(k: nat, o: nat)
    ensures Aligned(k * Pow2(o), o)
  {
    if o > 0 {
      assert k * Pow2(o) == 2 * (k * Pow2(o - 1));
      MultipleAligned(k, o - 1);
    }
  }

  lemma AlignedLess(p: nat, o: nat, k: nat)
    requires Aligned(p, o) && k <= o
    ensures Aligned(p, k)
  {
    if k > 0 { AlignedLess(p / 2, o - 1, k - 1); }
  }

  lemma {:induction false} AlignedAdd(p: nat, o: nat)
    requires Aligned(p, o)
    ensures Aligned(p + Pow2(o), o)
  {
    if o > 0 { AlignedAdd(p / 2, o - 1); assert (p + Pow2(o)) / 2 == p / 2 + Pow2(o - 1); }
  }

  /** Aligned blocks never straddle an aligned bound. */
  lemma {:induction false} AlignedBound(p: nat, bound: nat, o: nat)
    requires Aligned(p, o) && Aligned(bound, o) && p < bound
    ensures p + Pow2(o) <= bound
  {
    if o > 0 { AlignedBound(p / 2, bound / 2, o - 1); }
  }

  /** Adding 2^o to a multiple of 2^o toggles bit o. */
  lemma {:induction false} AlignedFlip(p: nat, o: nat)
    requires Aligned(p, o)
    ensures Aligned(p + Pow2(o), o + 1) <==> !Aligned(p, o + 1)
  {
    if o > 0 {
      AlignedFlip(p / 2, o - 1);
      assert (p + Pow2(o)) / 2 == p / 2 + Pow2(o - 1);
    } else {
      assert Aligned(p / 2, 0) && Aligned((p + 1) / 2, 0);
    }
  }

  lemma XorOne(p: nat)
    ensures Xor(p, 1) == if p % 2 == 0 then p + 1 else p - 1
  {
    assert Xor(p / 2, 0) == p / 2;
  }

  lemma XorEven(p: nat, o: nat)
    requires p % 2 == 0 && o > 0
    ensures Xor(p, Pow2(o)) == 2 * Xor(p / 2, Pow2(o - 1))
  {}

  /** On an aligned number, xor with 2^o flips exactly bit o. */
  lemma {:induction false} XorPow2(p: nat, o: nat)
    requires Aligned(p, o)
    ensures Aligned(p, o + 1) || p >= Pow2(o)
    ensures Xor(p, Pow2(o)) == if Aligned(p, o + 1) then p + Pow2(o) else p - Pow2(o)
  {
    if o == 0 {
      assert Aligned(p, 1) <==> p % 2 == 0 && Aligned(p / 2, 0);
      XorOne(p);
    } else {
      XorPow2(p / 2, o - 1);
      XorEven(p, o);
    }
  }

  /** Taking 2^o off a number whose bit o is set clears that bit. */
  lemma {:induction false} AlignedClear(p: nat, o: nat)
    requires Aligned(p, o) && !Aligned(p, o + 1) && p >= Pow2(o)
    ensures Aligned(p - Pow2(o), o + 1) && Aligned(p - Pow2(o), o)
  {
    hide Aligned;
    AlignedStep(p, o);
    AlignedStep(p - Pow2(o), o);
    if o > 0 {
      assert (p - Pow2(o)) / 2 == p / 2 - Pow2(o - 1);
      AlignedStep(p, o - 1);
      AlignedStep(p - Pow2(o), o - 1);
      AlignedClear(p / 2, o - 1);
    } else {
      AlignedByOne(p);
      AlignedByOne(p - 1);
    }
  }

  lemma AlignedStep(p: nat, o: nat)
    ensures Aligned(p, o + 1) <==> p % 2 == 0 && Aligned(p / 2, o)
    ensures Aligned(p, 0)
  {}

  lemma AlignedByOne(p: nat)
    ensures Aligned(p, 1) <==> p % 2 == 0
  {
    AlignedStep(p, 0);
    AlignedStep(p / 2, 0);
  }

  lemma XorPow2Aligned(p: nat, o: nat)
    requires Aligned(p, o)
    ensures Aligned(Xor(p, Pow2(o)), o)
    ensures Aligned(p, o + 1) <==> !Aligned(Xor(p, Pow2(o)), o + 1)
  {
    XorPow2(p, o);
    if Aligned(p, o + 1) {
      AlignedFlip(p, o);
      AlignedAdd(p, o);
    } else {
      AlignedClear(p, o);
    }
  }

  // ---- shifts and masks as arithmetic ----

  function Shr(a: nat, n: nat): nat {
    if n == 0 then a else Shr(a / 2, n - 1)
  }

  function Shl(a: nat, n: nat): nat {
    if n == 0 then a else 2 * Shl(a, n - 1)
  }

  lemma {:induction false} AndLow(a: nat, n: nat)
    ensures And(a, Pow2(n) - 1) < Pow2(n)
    ensures a == Shl(Shr(a, n), n) + And(a, Pow2(n) - 1)
  {
    if n > 0 {
      AndLow(a / 2, n - 1);
      assert Pow2(n) - 1 == 2 * (Pow2(n - 1) - 1) + 1;
    }
  }

  lemma {:induction false} AndHigh(a: nat, n: nat, mask: nat)
    ensures And(a, Shl(mask, n)) == Shl(And(Shr(a, n), mask), n)
  {
    if n > 0 {
      AndHigh(a / 2, n - 1, mask);
      assert And(a, Shl(mask, n)) == 2 * And(a / 2, Shl(mask, n - 1));
    }
  }

  lemma {:induction false} OrHighLow(h: nat, n: nat, low: nat)
    requires low < Pow2(n)
    ensures Or(Shl(h, n), low) == Shl(h, n) + low
  {
    if n > 0 {
      OrHighLow(h, n - 1, low / 2);
    }
  }

  lemma {:induction false} AndBounded(a: nat, b: nat)
    ensures And(a, b) <= b
  {
    if a != 0 && b != 0 { AndBounded(a / 2, b / 2); }
  }

  lemma {:induction false} ShlPow2(h: nat, n: nat)
    ensures Shl(h, n) == Pow2(n) * h
  {
    if n > 0 {
      ShlPow2(h, n - 1);
      assert 2 * (Pow2(n - 1) * h) == (2 * Pow2(n - 1)) * h;
    }
  }

  lemma Shl12(h: nat)
    ensures Shl(h, 12) == 4096 * h && Shl(h, 10) == 1024 * h && Shl(h, 22) == 0x40_0000 * h
  {
    Pow12();
    ShlPow2(h, 10);
    ShlPow2(h, 12);
    ShlPow2(h, 22);
  }

  lemma Pow12()
    ensures Pow2(10) == 1024 && Pow2(12) == 4096 && Pow2(20) == 0x10_0000 && Pow2(22) == 0x40_0000
  {
    assert Pow2(2) == 4 && Pow2(4) == 16 && Pow2(6) == 64 && Pow2(8) == 256 && Pow2(10) == 1024;
    assert Pow2(12) == 4096 && Pow2(14) == 16384 && Pow2(16) == 65536 && Pow2(18) == 0x4_0000;
  }

  lemma {:induction false} OrAssociative(a: nat, b: nat, c: nat)
    ensures Or(Or(a, b), c) == Or(a, Or(b, c))
  {
    hide Or;
    Nothing(a, b);
    Nothing(b, c);
    Nothing(Or(a, b), c);
    Nothing(a, Or(b, c));
    if a != 0 && b != 0 && c != 0 {
      OrAssociative(a / 2, b / 2, c / 2);
      OrStep(a, b);
      OrStep(b, c);
      OrStep(Or(a, b), c);
      OrStep(a, Or(b, c));
    }
  }

  /** A mask sees of a disjunction what it sees of the two sides. */
  lemma {:induction false} AndOr(a: nat, b: nat, m: nat)
    ensures And(Or(a, b), m) == Or(And(a, m), And(b, m))
  {
    hide And, Or;
    Nothing(a, b);
    Nothing(b, m);
    Nothing(And(a, m), And(b, m));
    if a != 0 && b != 0 {
      AndOr(a / 2, b / 2, m / 2);
      OrStep(a, b);
      AndStep(Or(a, b), m);
      AndStep(a, m);
      AndStep(b, m);
      OrStep(And(a, m), And(b, m));
    }
  }

  lemma Nothing(a: nat, m: nat)
    ensures And(0, m) == 0 && And(a, 0) == 0 && Or(0, m) == m && Or(a, 0) == a
  {}

  lemma OrStep(a: nat, b: nat)
    ensures Or(a, b) == (if a % 2 == 1 || b % 2 == 1 then 1 else 0) + 2 * Or(a / 2, b / 2)
  {
    assert a == 0 ==> Or(a / 2, b / 2) == b / 2;
    assert b == 0 ==> Or(a / 2, b / 2) == a / 2;
  }

  lemma {:induction false} AndAssociative(a: nat, b: nat, c: nat)
    ensures And(And(a, b), c) == And(a, And(b, c))
  {
    hide And;
    Nothing(a, b);
    Nothing(b, c);
    Nothing(And(a, b), c);
    Nothing(a, And(b, c));
    if a != 0 && b != 0 && c != 0 {
      AndAssociative(a / 2, b / 2, c / 2);
      AndStep(a, b);
      AndStep(b, c);
      AndStep(And(a, b), c);
      AndStep(a, And(b, c));
    }
  }

  lemma {:induction false} OrBounded(a: nat, b: nat, n: nat)
    requires a < Pow2(n) && b < Pow2(n)
    ensures Or(a, b) < Pow2(n)
  {
    if n > 0 { OrBounded(a / 2, b / 2, n - 1); }
  }

  lemma {:induction false} ShrAdd(a: nat, n: nat, m: nat)
    ensures Shr(a, n + m) == Shr(Shr(a, n), m)
  {
    if n > 0 { ShrAdd(a / 2, n - 1, m); }
  }

  /** A mask of low bits does not see the high ones. */
  lemma {:induction false} AndIgnoresHigh(h: nat, n: nat, low: nat, mask: nat)
    requires low < Pow2(n) && mask < Pow2(n)
    ensures And(Shl(h, n) + low, mask) == And(low, mask)
  {
    hide And;
    Nothing(Shl(h, n) + low, 0);
    Nothing(low, 0);
    if n > 0 {
      AndIgnoresHigh(h, n - 1, low / 2, mask / 2);
      AndStep(Shl(h, n) + low, mask);
      AndStep(low, mask);
    }
  }

  lemma {:induction false} ShrDivides(a: nat, n: nat)
    ensures Shr(a, n) == a / Pow2(n)
  {
    hide And;
    AndLow(a, n);
    ShlPow2(Shr(a, n), n);
    var q, r, d := Shr(a, n), And(a, Pow2(n) - 1), Pow2(n);
    assert a == d * q + r && 0 <= r < d;
    Quotient(a, d, q, r);
  }

  lemma Quotient(a: nat, d: nat, q: nat, r: nat)
    requires a == d * q + r && r < d
    ensures a / d == q && a % d == r
  {
    var q', r' := a / d, a % d;
    assert a == d * q' + r';
    if q' < q { Multiply(d, q' + 1, q); }
    if q < q' { Multiply(d, q + 1, q'); }
  }

  lemma Multiply(d: nat, x: nat, y: nat)
    requires x <= y
    ensures d * x <= d * y
  {}

  /** Testing one bit is the parity of a quotient. */
  lemma BitTest(a: nat, n: nat)
    ensures And(a, Pow2(n)) != 0 <==> a / Pow2(n) % 2 == 1
  {
    hide And, Shr, Shl;
    AndHigh(a, n, 1);
    ShlPow2(1, n);
    ShlPow2(And(Shr(a, n), 1), n);
    ShrDivides(a, n);
    AndStep(Shr(a, n), 1);
    Nothing(Shr(a, n) / 2, 0);
    if And(Shr(a, n), 1) == 0 { assert Pow2(n) * 0 == 0; }
  }

  /** A mask of the low bits is a remainder. */
  lemma LowMask(a: nat, n: nat)
    ensures And(a, Pow2(n) - 1) == a % Pow2(n)
  {
    hide And, Shr, Shl;
    AndLow(a, n);
    ShlPow2(Shr(a, n), n);
    Quotient(a, Pow2(n), Shr(a, n), And(a, Pow2(n) - 1));
  }

  lemma AndStep(a: nat, b: nat)
    ensures And(a, b) == (if a % 2 == 1 && b % 2 == 1 then 1 else 0) + 2 * And(a / 2, b / 2)
  {
    assert a == 0 ==> And(a / 2, b / 2) == 0;
    assert b == 0 ==> And(a / 2, b / 2) == 0;
  }

  lemma {:induction false} NoHighBits(a: nat, n: nat)
    requires a < Pow2(n)
    ensures And(a, Pow2(n) - 1) == a
  {
    hide And;
    Nothing(a, 0);
    if n > 0 {
      NoHighBits(a / 2, n - 1);
      NoHighBit(a, Pow2(n - 1));
    }
  }

  lemma NoHighBit(a: nat, m: nat)
    requires a < 2 * m && And(a / 2, m - 1) == a / 2
    ensures And(a, 2 * m - 1) == a
  {
    hide And;
    AndStep(a, 2 * m - 1);
  }

}
