/** The C bit operators on unsigned words, as functions on natural numbers.
    A shift left by k multiplies by Pow2(k); a shift right divides by it. */
module Bitwise {

  type byte = x: int | 0 <= x < 256
  type uint32 = x: int | 0 <= x < 0x1_0000_0000
  type uint64 = x: int | 0 <= x < 0x1_0000_0000_0000_0000

  const WORD_MAX: nat := 0xFFFF_FFFF

  function Pow2(k: nat): (p: nat)
    ensures p > 0
  {
    if k == 0 then 1 else 2 * Pow2(k - 1)
  }

  /** Bit k of w. */
  predicate Bit(w: nat, k: nat) {
    if k == 0 then w % 2 == 1 else Bit(w / 2, k - 1)
  }

  /** a | b */
  function Or(a: nat, b: nat): (r: nat)
    ensures r >= a && r >= b
    decreases a + b
  {
    if a == 0 && b == 0 then 0
    else 2 * Or(a / 2, b / 2) + (if a % 2 == 1 || b % 2 == 1 then 1 else 0)
  }

  /** a & b */
  function And(a: nat, b: nat): (r: nat)
    ensures r <= a
  {
    if a == 0 then 0
    else 2 * And(a / 2, b / 2) + (if a % 2 == 1 && b % 2 == 1 then 1 else 0)
  }

  /** a & ~b */
  function AndNot(a: nat, b: nat): (r: nat)
    ensures r <= a
  {
    if a == 0 then 0
    else 2 * AndNot(a / 2, b / 2) + (if a % 2 == 1 && b % 2 == 0 then 1 else 0)
  }

  lemma {:induction false} OrBit(a: nat, b: nat, k: nat)
    ensures Bit(Or(a, b), k) == (Bit(a, k) || Bit(b, k))
    decreases k
  {
    assert Or(a, b) / 2 == Or(a / 2, b / 2);
    if k > 0 {
      OrBit(a / 2, b / 2, k - 1);
    }
  }

  lemma {:induction false} AndNotBit(a: nat, b: nat, k: nat)
    ensures Bit(AndNot(a, b), k) == (Bit(a, k) && !Bit(b, k))
    decreases k
  {
    assert AndNot(a, b) / 2 == AndNot(a / 2, b / 2);
    if k > 0 {
      AndNotBit(a / 2, b / 2, k - 1);
    }
  }

  /** The mask 1 << k has bit k and no other. */
  lemma {:induction false} MaskBit(k: nat, j: nat)
    ensures Bit(Pow2(k), j) == (j == k)
    decreases k
  {
    if k == 0 {
      NoBits(j);
      if j > 0 {
        NoBits(j - 1);
      }
    } else if j > 0 {
      MaskBit(k - 1, j - 1);
    }
  }

  lemma {:induction false} NoBits(j: nat)
    ensures !Bit(0, j)
  {
    if j > 0 {
      NoBits(j - 1);
    }
  }

  /** Or-ing the mask in adds it, unless the bit was set. */
  lemma {:induction false} OrMask(w: nat, k: nat)
    ensures Or(w, Pow2(k)) == if Bit(w, k) then w else w + Pow2(k)
    decreases k
  {
    if k == 0 {
      OrZero(w / 2);
    } else {
      OrMask(w / 2, k - 1);
    }
  }

  /** Clearing the mask subtracts it, if the bit was set. */
  lemma {:induction false} AndNotMask(w: nat, k: nat)
    ensures w > 0 || !Bit(w, k)
    ensures AndNot(w, Pow2(k)) == if Bit(w, k) then w - Pow2(k) else w
    decreases k
  {
    if w == 0 {
      NoBits(k);
    } else if k == 0 {
      ClearNone(w / 2);
    } else {
      AndNotMask(w / 2, k - 1);
    }
  }

  /** The C test `w & (1 << k)` is the bit test. */
  lemma {:induction false} MaskTest(w: nat, k: nat)
    ensures And(w, Pow2(k)) != 0 <==> Bit(w, k)
    decreases k
  {
    if w == 0 {
      NoBits(k);
    } else if k == 0 {
      AndZero(w / 2);
    } else {
      MaskTest(w / 2, k - 1);
    }
  }

  lemma {:induction false} AndZero(a: nat)
    ensures And(a, 0) == 0
  {
    if a > 0 {
      AndZero(a / 2);
    }
  }

  /** Two k-bit words give a k-bit word. */
  lemma {:induction false} OrBound(a: nat, b: nat, k: nat)
    requires a < Pow2(k) && b < Pow2(k)
    ensures Or(a, b) < Pow2(k)
    decreases k
  {
    if k > 0 {
      OrBound(a / 2, b / 2, k - 1);
    }
  }

  lemma {:induction false} Pow2Mono(j: nat, k: nat)
    requires j < k
    ensures Pow2(j) < Pow2(k)
    decreases k
  {
    if j + 1 < k {
      Pow2Mono(j, k - 1);
    }
  }

  lemma Pow2At32()
    ensures Pow2(12) == 0x1000 && Pow2(10) == 0x400 && Pow2(32) == 0x1_0000_0000
  {
    assert Pow2(10) == 0x400;
    assert Pow2(12) == 0x1000;
    assert Pow2(22) == 0x40_0000;
    assert Pow2(32) == 0x1_0000_0000;
  }

  /** An all-ones word has every bit set. */
  lemma {:induction false} AllOnes(n: nat, k: nat)
    requires k < n
    ensures Bit(Pow2(n) - 1, k)
    decreases n
  {
    if k > 0 {
      assert (Pow2(n) - 1) / 2 == Pow2(n - 1) - 1;
      AllOnes(n - 1, k - 1);
    }
  }

  /** Or-ing low bits into an aligned word adds them. */
  lemma {:induction false} OrIsSum(a: nat, b: nat, k: nat)
    requires a % Pow2(k) == 0 && b < Pow2(k)
    ensures Or(a, b) == a + b
    decreases k
  {
    if k == 0 {
      OrZero(a);
    } else {
      HalfAligned(a, k);
      OrIsSum(a / 2, b / 2, k - 1);
    }
  }

  lemma {:induction false} OrZero(a: nat)
    ensures Or(a, 0) == a
  {
    if a > 0 {
      OrZero(a / 2);
    }
  }

  lemma {:induction false} HalfAligned(a: nat, k: nat)
    requires k > 0 && a % Pow2(k) == 0
    ensures a % 2 == 0 && (a / 2) % Pow2(k - 1) == 0
  {
    var p, q := Pow2(k - 1), a / Pow2(k);
    assert a == 2 * p * q;
    assert a == 2 * (p * q);
    assert (p * q) % p == 0 by { MulMod(q, p); }
  }

  lemma MulMod(q: nat, p: nat)
    requires p > 0
    ensures (p * q) % p == 0
  {
    if q > 0 {
      MulMod(q - 1, p);
      assert p * q == p * (q - 1) + p;
      assert (p * (q - 1) + p) % p == (p * (q - 1)) % p by { ModShift(p * (q - 1), p); }
    }
  }

  lemma ModShift(x: nat, p: nat)
    requires p > 0
    ensures (x + p) % p == x % p
  {
    var d, r := x / p, x % p;
    assert x + p == p * (d + 1) + r;
    DivUnique(x + p, p, d + 1, r);
  }

  lemma {:induction false} MulStep(p: int, d: int, e: int)
    requires p > 0 && d > e
    ensures p * d >= p * e + p
    decreases d - e
  {
    assert p * d == p * (d - 1) + p;
    if d - 1 > e {
      MulStep(p, d - 1, e);
    }
  }

  lemma DivUnique(x: int, p: int, d: int, r: int)
    requires p > 0 && x == p * d + r && 0 <= r < p
    ensures x / p == d && x % p == r
  {
    var e, r' := x / p, x % p;
    assert x == p * e + r' && 0 <= r' < p;
    if d > e {
      MulStep(p, d, e);
    } else if e > d {
      MulStep(p, e, d);
    }
  }

  /** Clearing the low k bits rounds down to a multiple of Pow2(k). */
  lemma {:induction false} ClearLow(a: nat, k: nat)
    ensures AndNot(a, Pow2(k) - 1) == a - a % Pow2(k)
    decreases k
  {
    if k == 0 {
      ClearNone(a);
    } else if a > 0 {
      var p := Pow2(k - 1);
      assert AndNot(a, 2 * p - 1) == 2 * AndNot(a / 2, p - 1) by {
        assert (2 * p - 1) / 2 == p - 1 && (2 * p - 1) % 2 == 1;
      }
      hide AndNot;
      ClearLow(a / 2, k - 1);
      ModHalf(a, p);
    } else {
      DivUnique(0, Pow2(k), 0, 0);
    }
  }

  lemma {:induction false} ClearNone(a: nat)
    ensures AndNot(a, 0) == a
  {
    if a > 0 {
      ClearNone(a / 2);
    }
  }

  lemma ModHalf(a: nat, p: nat)
    requires p > 0
    ensures a % (2 * p) == 2 * ((a / 2) % p) + a % 2
  {
    var q, r := (a / 2) / p, (a / 2) % p;
    assert a == 2 * (p * q + r) + a % 2;
    assert a == (2 * p) * q + (2 * r + a % 2);
    DivUnique(a, 2 * p, q, 2 * r + a % 2);
  }

  /** Clearing the k bits from bit j on leaves what is above and what is below them. */
  lemma {:induction false} ClearMiddle(a: nat, j: nat, k: nat, mask: nat)
    requires mask == Pow2(j) * (Pow2(k) - 1)
    ensures AndNot(a, mask) == a / Pow2(j + k) * Pow2(j + k) + a % Pow2(j)
    decreases j
  {
    hide AndNot;
    var m := Pow2(k) - 1;
    if j == 0 {
      ClearLow(a, k);
      DivMod(a, Pow2(k));
      assert Pow2(0) * m == m && a % Pow2(0) == 0;
    } else {
      var p, q := Pow2(j - 1), Pow2(j - 1 + k);
      ClearMiddle(a / 2, j - 1, k, p * m);
      AndNotDouble(a, p * m);
      MiddleStep(a, p, q);
      PowersDouble(j, k, m);
    }
  }

  lemma PowersDouble(j: nat, k: nat, m: nat)
    requires j > 0
    ensures Pow2(j) == 2 * Pow2(j - 1) && Pow2(j + k) == 2 * Pow2(j - 1 + k)
    ensures Pow2(j) * m == 2 * (Pow2(j - 1) * m)
  {
    assert 2 * Pow2(j - 1) * m == 2 * (Pow2(j - 1) * m);
  }

  lemma DivMod(a: nat, p: nat)
    requires p > 0
    ensures a - a % p == a / p * p
  {
  }

  lemma AndNotDouble(a: nat, b: nat)
    ensures AndNot(a, 2 * b) == 2 * AndNot(a / 2, b) + a % 2
  {
  }

  lemma MiddleStep(a: nat, p: nat, q: nat)
    requires p > 0 && q > 0
    ensures 2 * (a / 2 / q * q + a / 2 % p) + a % 2 == a / (2 * q) * (2 * q) + a % (2 * p)
  {
    var d, r := a / 2 / q, a / 2 % q;
    ModHalf(a, p);
    assert a == 2 * q * d + (2 * r + a % 2);
    DivUnique(a, 2 * q, d, 2 * r + a % 2);
  }

  /** Keeping the low k bits takes the remainder. */
  lemma {:induction false} KeepLow(a: nat, k: nat)
    ensures And(a, Pow2(k) - 1) == a % Pow2(k)
    decreases k
  {
    if k == 0 {
      AndZero(a);
    } else if a > 0 {
      var m, p := Pow2(k) - 1, Pow2(k - 1);
      assert m / 2 == p - 1 && m % 2 == 1;
      KeepLow(a / 2, k - 1);
      assert And(a, m) == 2 * And(a / 2, p - 1) + a % 2;
      ModHalf(a, p);
    } else {
      DivUnique(0, Pow2(k), 0, 0);
    }
  }
}
