/** Machine words as natural numbers.  The kernel computes on 32-bit unsigned
    words and on bytes; here a word is a `nat` below `WORD`, wrap-around is written
    as `% WORD`, and the bitwise operators are defined digit by digit. */
module Words {

  const WORD: nat := 0x1_0000_0000

  type Byte = x: nat | x < 256

  function Pow2(k: nat): (r: nat)
    ensures r >= 1
  {
    if k == 0 then 1 else 2 * Pow2(k - 1)
  }

  /** 32-bit addition, subtraction and left shift. */
  function Add32(a: nat, b: nat): nat { (a + b) % WORD }

  function Sub32(a: nat, b: nat): nat
    requires b <= WORD
  {
    (a + WORD - b) % WORD
  }

  function Shl32(a: nat, k: nat): nat { (a * Pow2(k)) % WORD }

  /** Right shift. */
  function Shr(x: nat, k: nat): nat
    decreases k
  {
    if k == 0 then x else Shr(x / 2, k - 1)
  }

  /** Binary digit `k` of `x`. */
  predicate Bit(x: nat, k: nat)
    decreases k
  {
    if k == 0 then x % 2 == 1 else Bit(x / 2, k - 1)
  }

  function And(a: nat, b: nat): nat {
    if a == 0 || b == 0 then 0
    else 2 * And(a / 2, b / 2) + (if a % 2 == 1 && b % 2 == 1 then 1 else 0)
  }

  function Or(a: nat, b: nat): nat
    decreases a + b
  {
    if a == 0 && b == 0 then 0
    else 2 * Or(a / 2, b / 2) + (if a % 2 == 1 || b % 2 == 1 then 1 else 0)
  }

  function Xor(a: nat, b: nat): nat
    decreases a + b
  {
    if a == 0 && b == 0 then 0
    else 2 * Xor(a / 2, b / 2) + (if a % 2 != b % 2 then 1 else 0)
  }

  // ---------- powers of two and division ----------

  lemma MulSpread(a: int, b: int, d: nat)
    requires a < b
    ensures a * d + d <= b * d
  {
    var k: nat := b - a - 1;
    Distribute(a, k, d);
    NotNegative(k, d);
  }

  lemma Distribute(a: int, k: int, d: int)
    ensures (a + 1 + k) * d == a * d + d + k * d
  {
  }

  lemma NotNegative(k: nat, d: nat)
    ensures k * d >= 0
  {
  }

  lemma DivModUnique(x: nat, d: nat, q: nat, r: nat)
    requires 0 < d && r < d && x == q * d + r
    ensures x / d == q && x % d == r
  {
    var q', r' := x / d, x % d;
    assert x == q' * d + r';
    if q < q' { MulSpread(q, q', d); }
    if q' < q { MulSpread(q', q, d); }
  }

  lemma {:induction false} Pow2Add(j: nat, k: nat)
    ensures Pow2(j + k) == Pow2(j) * Pow2(k)
  {
    if j > 0 { Pow2Add(j - 1, k); }
  }

  lemma WordIsPow2()
    ensures Pow2(32) == WORD
  {
    assert Pow2(8) == 256;
    Pow2Add(8, 8);
    Pow2Add(16, 16);
  }

  lemma {:induction false} Pow2Mono(j: nat, k: nat)
    requires j < k
    ensures Pow2(j) < Pow2(k)
  {
    if j < k - 1 { Pow2Mono(j, k - 1); }
  }

  lemma MultipleMod(q: nat, d: nat)
    requires d > 0
    ensures (q * d) % d == 0 && (q * d) / d == q
  {
    DivModUnique(q * d, d, q, 0);
  }

  /** Shifting right one place and then `k` places is shifting right `k + 1` places. */
  lemma ShiftStep(x: nat, k: nat)
    ensures x / Pow2(k + 1) == (x / 2) / Pow2(k)
    ensures x % Pow2(k + 1) == 2 * ((x / 2) % Pow2(k)) + x % 2
  {
    var p := Pow2(k);
    var q, r := (x / 2) / p, (x / 2) % p;
    assert x / 2 == q * p + r;
    assert q * (2 * p) == 2 * (q * p);
    DivModUnique(x, 2 * p, q, 2 * r + x % 2);
  }

  lemma {:induction false} ShrStep(x: nat, k: nat)
    ensures Shr(x, k + 1) == Shr(x, k) / 2
  {
    if k > 0 { ShrStep(x / 2, k - 1); }
  }

  lemma {:induction false} ShrShr(x: nat, j: nat, k: nat)
    ensures Shr(Shr(x, j), k) == Shr(x, j + k)
    decreases j
  {
    if j > 0 { ShrShr(x / 2, j - 1, k); }
  }

  lemma {:induction false} ShrIsDiv(x: nat, k: nat)
    ensures Shr(x, k) == x / Pow2(k)
    decreases k
  {
    if k > 0 {
      ShrIsDiv(x / 2, k - 1);
      ShiftStep(x, k - 1);
    }
  }

  lemma {:induction false} BitIsQuotient(x: nat, k: nat)
    ensures Bit(x, k) <==> (x / Pow2(k)) % 2 == 1
  {
    if k > 0 {
      BitIsQuotient(x / 2, k - 1);
      ShiftStep(x, k - 1);
    }
  }

  // ---------- digits of the bitwise operators ----------

  lemma {:induction false} AndBits(a: nat, b: nat, k: nat)
    ensures Bit(And(a, b), k) <==> Bit(a, k) && Bit(b, k)
    decreases k
  {
    if a == 0 || b == 0 {
      ZeroBits(k);
    } else if k > 0 {
      AndBits(a / 2, b / 2, k - 1);
    }
  }

  lemma {:induction false} OrBits(a: nat, b: nat, k: nat)
    ensures Bit(Or(a, b), k) <==> Bit(a, k) || Bit(b, k)
    decreases k
  {
    if a == 0 && b == 0 {
      ZeroBits(k);
    } else if k > 0 {
      OrBits(a / 2, b / 2, k - 1);
    }
  }

  lemma {:induction false} XorBits(a: nat, b: nat, k: nat)
    ensures Bit(Xor(a, b), k) <==> Bit(a, k) != Bit(b, k)
    decreases k
  {
    if a == 0 && b == 0 {
      ZeroBits(k);
    } else if k > 0 {
      XorBits(a / 2, b / 2, k - 1);
    }
  }

  lemma {:induction false} ZeroBits(k: nat)
    ensures !Bit(0, k)
  {
    if k > 0 { ZeroBits(k - 1); }
  }

  /** A word has no bit beyond its size. */
  lemma {:induction false} BitAbove(x: nat, n: nat, k: nat)
    requires x < Pow2(n) && n <= k
    ensures !Bit(x, k)
    decreases n
  {
    if n == 0 { ZeroBits(k); } else { BitAbove(x / 2, n - 1, k - 1); }
  }

  lemma {:induction false} Pow2Bits(j: nat, k: nat)
    ensures Bit(Pow2(j), k) <==> j == k
  {
    if k == 0 {
    } else if j == 0 {
      ZeroBits(k - 1);
    } else {
      Pow2Bits(j - 1, k - 1);
    }
  }

  /** Masking with a single bit tests that bit. */
  lemma {:induction false} AndPow2(x: nat, k: nat)
    ensures And(x, Pow2(k)) == if Bit(x, k) then Pow2(k) else 0
  {
    if x == 0 {
      ZeroBits(k);
    } else if k == 0 {
      assert And(x / 2, 0) == 0;
    } else {
      AndPow2(x / 2, k - 1);
    }
  }

  /** Toggling one bit adds or subtracts its weight. */
  lemma {:induction false} XorPow2(x: nat, k: nat)
    ensures Bit(x, k) ==> x >= Pow2(k)
    ensures Xor(x, Pow2(k)) == if Bit(x, k) then x - Pow2(k) else x + Pow2(k)
  {
    if k == 0 {
      XorZero(x / 2);
    } else {
      XorPow2(x / 2, k - 1);
      XorEven(x, Pow2(k - 1));
    }
  }

  lemma XorEven(x: nat, m: nat)
    ensures Xor(x, 2 * m) == 2 * Xor(x / 2, m) + x % 2
  {
  }

  lemma {:induction false} XorZero(x: nat)
    ensures Xor(x, 0) == x
  {
    if x > 0 { XorZero(x / 2); }
  }

  lemma {:induction false} OrZero(x: nat)
    ensures Or(x, 0) == x
  {
    if x > 0 { OrZero(x / 2); }
  }

  /** Masking with `2^n - 2^k` rounds an `n`-bit number down to a multiple of `2^k`. */
  lemma {:induction false} AndHighMask(x: nat, k: nat, n: nat)
    requires k <= n && x < Pow2(n)
    ensures Pow2(k) <= Pow2(n)
    ensures And(x, Pow2(n) - Pow2(k)) == Shr(x, k) * Pow2(k)
  {
    hide And;
    if k < n { Pow2Mono(k, n); }
    if k == 0 {
      AndOnes(x, n);
    } else {
      var y, m, p := x / 2, Pow2(n - 1) - Pow2(k - 1), Pow2(k - 1);
      AndHighMask(y, k - 1, n - 1);
      AndEven(x, m);
      var q := Shr(y, k - 1);
      assert Shr(x, k) == q && Pow2(k) == 2 * p && Pow2(n) - Pow2(k) == 2 * m;
      hide Shr, Pow2;
      TwiceMul(q, p);
    }
  }

  lemma AndEven(x: nat, m: nat)
    ensures And(x, 2 * m) == 2 * And(x / 2, m)
  {
    if x > 0 && m > 0 {
      var n := 2 * m;
      assert n / 2 == m && n % 2 == 0;
    }
  }

  lemma TwiceMul(q: nat, d: nat)
    ensures q * (2 * d) == 2 * (q * d) == (2 * q) * d
  {
  }

  lemma {:induction false} AndOnes(x: nat, n: nat)
    requires x < Pow2(n)
    ensures And(x, Pow2(n) - 1) == x
  {
    if x > 0 { AndOnes(x / 2, n - 1); }
  }

  lemma {:induction false} AndLowMask(x: nat, k: nat)
    ensures And(x, Pow2(k) - 1) == x % Pow2(k)
  {
    hide And, Pow2;
    Pow2Step(k);
    if k > 0 {
      AndLowMask(x / 2, k - 1);
      ShiftStep(x, k - 1);
      AndOdd(x, Pow2(k - 1) - 1);
    } else {
      AndZero(x);
    }
  }

  lemma Pow2Step(k: nat)
    ensures Pow2(k) == if k == 0 then 1 else 2 * Pow2(k - 1)
  {
  }

  lemma AndZero(x: nat)
    ensures And(x, 0) == 0
  {
  }

  lemma AndOdd(x: nat, m: nat)
    ensures And(x, 2 * m + 1) == 2 * And(x / 2, m) + x % 2
  {
  }

  /** Setting a bit below every bit already set is addition. */
  lemma {:induction false} OrPow2(x: nat, k: nat)
    requires x % Pow2(k + 1) == 0
    ensures Or(x, Pow2(k)) == x + Pow2(k)
  {
    ShiftStep(x, k);
    if k == 0 {
      OrZero(x / 2);
    } else {
      OrPow2(x / 2, k - 1);
    }
  }

  /** Powers of two are exactly the nonzero words with `d & (d - 1) == 0`. */
  lemma {:induction false} PowerOfTwoTest(d: nat) returns (k: nat)
    requires d > 0 && And(d, d - 1) == 0
    ensures d == Pow2(k)
  {
    if d == 1 {
      k := 0;
    } else if d % 2 == 1 {
      assert And(d / 2, (d - 1) / 2) == 0;
      AndSelf(d / 2);
      assert false;
    } else {
      assert (d - 1) / 2 == d / 2 - 1;
      var j := PowerOfTwoTest(d / 2);
      k := j + 1;
    }
  }

  lemma {:induction false} AndSelf(x: nat)
    ensures And(x, x) == x
  {
    if x > 0 { AndSelf(x / 2); }
  }

  lemma {:induction false} XorBelow(a: nat, b: nat, n: nat)
    requires a < Pow2(n) && b < Pow2(n)
    ensures Xor(a, b) < Pow2(n)
  {
    if n > 0 { XorBelow(a / 2, b / 2, n - 1); }
  }

  lemma {:induction false} OrBelow(a: nat, b: nat, n: nat)
    requires a < Pow2(n) && b < Pow2(n)
    ensures Or(a, b) < Pow2(n)
  {
    if n > 0 { OrBelow(a / 2, b / 2, n - 1); }
  }

  lemma NoWrap(x: nat, y: nat)
    requires x + y < WORD
    ensures Add32(x, y) == x + y
  {
  }
}
