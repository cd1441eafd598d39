/** Bitwise operations on non-negative integers, defined bit by bit from
    the least significant end, and the arithmetic facts the codec needs
    about them. */
module Bits {

  function Pow2(n: nat): (r: nat)
    ensures r >= 1
  {
    if n == 0 then 1 else 2 * Pow2(n - 1)
  }

  function And(a: nat, b: nat): nat
    decreases a
  {
    if a == 0 || b == 0 then 0
    else 2 * And(a / 2, b / 2) + (if a % 2 == 1 && b % 2 == 1 then 1 else 0)
  }

  function Or(a: nat, b: nat): nat
    decreases a
  {
    if a == 0 then b
    else if b == 0 then a
    else 2 * Or(a / 2, b / 2) + (if a % 2 == 1 || b % 2 == 1 then 1 else 0)
  }

  function Xor(a: nat, b: nat): nat
    decreases a
  {
    if a == 0 then b
    else if b == 0 then a
    else 2 * Xor(a / 2, b / 2) + (a % 2 + b % 2) % 2
  }

  lemma Pow2Add(m: nat, n: nat)
    ensures Pow2(m + n) == Pow2(m) * Pow2(n)
  {
    if m > 0 {
      Pow2Add(m - 1, n);
    }
  }

  lemma {:induction false} AndBound(a: nat, b: nat)
    ensures And(a, b) <= a && And(a, b) <= b
    decreases a
  {
    if a != 0 && b != 0 {
      AndBound(a / 2, b / 2);
    }
  }

  lemma {:induction false} OrBound(a: nat, b: nat, n: nat)
    requires a < Pow2(n) && b < Pow2(n)
    ensures Or(a, b) < Pow2(n)
    decreases a
  {
    if a != 0 && b != 0 {
      assert n > 0;
      OrBound(a / 2, b / 2, n - 1);
    }
  }

  lemma {:induction false} XorBound(a: nat, b: nat, n: nat)
    requires a < Pow2(n) && b < Pow2(n)
    ensures Xor(a, b) < Pow2(n)
    decreases a
  {
    if a != 0 && b != 0 {
      assert n > 0;
      XorBound(a / 2, b / 2, n - 1);
    }
  }

  /** Masking with `2^n - 1` keeps the low `n` bits. */
  lemma {:induction false} AndLowMask(a: nat, n: nat)
    ensures And(a, Pow2(n) - 1) == a % Pow2(n)
    decreases a
  {
    if a != 0 && n != 0 {
      AndLowMask(a / 2, n - 1);
      AndLowMaskStep(a, n);
    }
  }

  /** The inductive step of `AndLowMask`: from the low `n - 1` bits of
      `a / 2` to the low `n` bits of `a`. */
  lemma AndLowMaskStep(a: nat, n: nat)
    requires n != 0
    requires And(a / 2, Pow2(n - 1) - 1) == (a / 2) % Pow2(n - 1)
    ensures And(a, Pow2(n) - 1) == a % Pow2(n)
  {
    AndOddStep(a, Pow2(n - 1));
    DivModPow2(a, n);
  }



  /** One step of `and` with a mask whose lowest bit is set. */
  lemma AndOddStep(a: nat, h: nat)
    requires h >= 1
    ensures And(a, 2 * h - 1) == 2 * And(a / 2, h - 1) + a % 2
  {
    var m := 2 * h - 1;
    assert m / 2 == h - 1 && m % 2 == 1;
  }



  lemma DivModPow2(a: nat, n: nat)
    requires n > 0
    ensures a % Pow2(n) == 2 * ((a / 2) % Pow2(n - 1)) + a % 2
  {
    var p := Pow2(n - 1);
    var q := (a / 2) / p;
    var r := (a / 2) % p;
    assert a / 2 == q * p + r;
    assert a == q * (2 * p) + (2 * r + a % 2);
    assert 0 <= 2 * r + a % 2 < 2 * p;
    LemmaModUnique(a, 2 * p, q, 2 * r + a % 2);
  }

  lemma LemmaModUnique(a: int, d: int, q: int, r: int)
    requires d > 0 && 0 <= r < d && a == q * d + r
    ensures a % d == r && a / d == q
  {
    var q', r' := a / d, a % d;
    assert (q - q') * d == r' - r;
    if q > q' {
      MulAtLeast(q - q', d);
    } else if q < q' {
      MulAtLeast(q' - q, d);
    }
  }

  /** A value already below the modulus is its own remainder. */
  lemma ModOfSmall(m: int, d: int)
    requires 0 <= m < d
    ensures m % d == m && m / d == 0
  {
    LemmaModUnique(m, d, 0, m);
  }

  /** A multiple of the modulus leaves no remainder. */
  lemma ModOfMultiple(q: int, d: int)
    requires d > 0
    ensures (q * d) % d == 0
  {
    LemmaModUnique(q * d, d, q, 0);
  }

  /** Division by a positive number moves toward zero, and never past it. */
  lemma DivShrinks(x: int, d: int)
    requires d >= 1
    ensures x >= 0 ==> 0 <= x / d <= x
    ensures x < 0 ==> x <= x / d < 0
  {
    var q, r := x / d, x % d;
    assert x == q * d + r && 0 <= r < d;
    if x >= 0 {
      if q < 0 {
        MulAtLeast(-q, d);
      } else if q > 0 {
        MulAtLeast(d, q);
      }
    } else {
      if q >= 0 {
        MulNonNeg(q, d);
      }
      if q + 1 < 0 {
        MulAtLeast(d, -(q + 1));
        assert (q + 1) * d <= q + 1;
      }
    }
  }

  lemma MulNonNeg(x: int, y: int)
    requires x >= 0 && y >= 0
    ensures x * y >= 0
  {
  }

  lemma MulAtLeast(x: int, d: int)
    requires x >= 1 && d > 0
    ensures x * d >= d
  {
  }

  lemma {:induction false} Pow2Monotone(k: nat, n: nat)
    requires k <= n
    ensures Pow2(k) <= Pow2(n)
    decreases n
  {
    if k < n {
      Pow2Monotone(k, n - 1);
    }
  }

  /** Masking with `2^n - 2^k` (all bits from `k` up to `n`) gives zero
      exactly when the value is below `2^k`. */
  lemma {:induction false} AndHighMaskZero(a: nat, n: nat, k: nat)
    requires k <= n && a < Pow2(n)
    ensures Pow2(k) <= Pow2(n)
    ensures And(a, Pow2(n) - Pow2(k)) == 0 <==> a < Pow2(k)
    decreases k
  {
    Pow2Monotone(k, n);
    if k == 0 {
      AndFullMask(a, n);
    } else {
      AndHighMaskZero(a / 2, n - 1, k - 1);
      Pow2Monotone(k - 1, n - 1);
      AndHighMaskStep(a, n, k);
    }
  }

  /** Masking with all `n` low bits keeps a value below `2^n`. */
  lemma AndFullMask(a: nat, n: nat)
    requires a < Pow2(n)
    ensures And(a, Pow2(n) - 1) == a
  {
    AndLowMask(a, n);
    ModOfSmall(a, Pow2(n));
  }

  /** The inductive step of `AndHighMaskZero`. */
  lemma AndHighMaskStep(a: nat, n: nat, k: nat)
    requires 0 < k <= n && Pow2(k - 1) <= Pow2(n - 1)
    requires And(a / 2, Pow2(n - 1) - Pow2(k - 1)) == 0 <==> a / 2 < Pow2(k - 1)
    ensures And(a, Pow2(n) - Pow2(k)) == 0 <==> a < Pow2(k)
  {
    var p := Pow2(k - 1);
    AndHalves(a, Pow2(n - 1), p);
    assert a / 2 < p <==> a < 2 * p;
  }



  /** One step of `AndHighMaskZero`: the lowest bit of the mask is clear. */
  lemma AndHalves(a: nat, pn: nat, p: nat)
    requires p <= pn
    ensures And(a, 2 * pn - 2 * p) == 2 * And(a / 2, pn - p)
  {
    var m := 2 * pn - 2 * p;
    if a != 0 && m != 0 {
      assert m % 2 == 0 && m / 2 == pn - p;
    }
  }

  /** A mask below `2^n` sees only the low `n` bits of the value. */
  lemma {:induction false} AndMaskLow(a: nat, m: nat, n: nat)
    requires m < Pow2(n)
    ensures And(a, m) == And(a % Pow2(n), m)
    decreases n
  {
    if n == 0 {
      assert m == 0;
    } else if a != 0 && m != 0 {
      var p := Pow2(n - 1);
      DivModPow2(a, n);
      var r := a % Pow2(n);
      assert r / 2 == (a / 2) % p && r % 2 == a % 2;
      AndMaskLow(a / 2, m / 2, n - 1);
    }
  }

  /** `or` of a value below `2^n` with a multiple of `2^n` is their sum. */
  lemma {:induction false} OrDisjoint(a: nat, b: nat, n: nat)
    requires a < Pow2(n) && b % Pow2(n) == 0
    ensures Or(a, b) == a + b
    decreases n
  {
    if a != 0 && b != 0 {
      assert n > 0;
      DivModPow2(b, n);
      OrDisjoint(a / 2, b / 2, n - 1);
    }
  }

  /** `xor` with all ones in the low `n` bits is the complement. */
  lemma {:induction false} XorAllOnes(a: nat, n: nat)
    requires a < Pow2(n)
    ensures Xor(a, Pow2(n) - 1) == Pow2(n) - 1 - a
    decreases n
  {
    if a != 0 && n != 0 {
      XorAllOnes(a / 2, n - 1);
      XorOddStep(a, Pow2(n - 1));
    }
  }



  /** One step of `xor` with a mask whose lowest bit is set. */
  lemma XorOddStep(a: nat, h: nat)
    requires h >= 1
    ensures Xor(a, 2 * h - 1) == 2 * Xor(a / 2, h - 1) + 1 - a % 2
  {
    var m := 2 * h - 1;
    assert m / 2 == h - 1 && m % 2 == 1;
  }



  lemma {:induction false} OrComm(a: nat, b: nat)
    ensures Or(a, b) == Or(b, a)
    decreases a
  {
    if a != 0 && b != 0 {
      OrComm(a / 2, b / 2);
    }
  }

  /** Splitting a modulus into two factors: the low digits in base `d1`
      followed by one digit in base `d2`. */
  lemma ModMulSplit(u: nat, d1: nat, d2: nat)
    requires d1 > 0 && d2 > 0
    ensures d1 * d2 > 0
    ensures u % (d1 * d2) == u % d1 + d1 * ((u / d1) % d2)
    ensures u / (d1 * d2) == (u / d1) / d2
  {
    MulAtLeast(d1, d2);
    var q := (u / d1) / d2;
    var m := (u / d1) % d2;
    var r := u % d1 + d1 * m;
    assert u / d1 == d2 * q + m;
    assert u == d1 * (u / d1) + u % d1;
    assert d1 * (u / d1) == d1 * (d2 * q) + d1 * m;
    assert d1 * (d2 * q) == q * (d1 * d2);
    assert m <= d2 - 1;
    assert d1 * m <= d1 * (d2 - 1) by { MulMono(d1, m, d2 - 1); }
    assert d1 * (d2 - 1) == d1 * d2 - d1;
    LemmaModUnique(u, d1 * d2, q, r);
  }

  lemma MulMono(x: nat, a: nat, b: nat)
    requires a <= b
    ensures x * a <= x * b
  {
    assert x * b - x * a == x * (b - a);
    MulNonNeg(x, b - a);
  }
}
