/** The integer division routines of arch/arm/2440slib.s, register by register.  A register is
    a `nat` below `WORD`; a condition code becomes the comparison that set it. */
module Divide {
  import opened Words

  const HALF: int := 0x8000_0000

  // ---------- what the division loop keeps ----------

  /** The quotient bits of weight 2^k and more are decided. */
  ghost predicate Decided(n0: nat, d: nat, k: nat, n: nat, q: nat) {
    n0 == q * d + n && n < d * Pow2(k) && Shr(q, k) * Pow2(k) == q
  }

  /** As `Decided`, or past the last bit: then only the quotient matters. */
  ghost predicate Progress(n0: nat, d: nat, k: int, n: nat, q: nat) {
    if k >= 0 then Decided(n0, d, k, n, q) else d > 0 && q == n0 / d
  }

  lemma DecidedAll(n0: nat, d: nat, k: nat, n: nat, q: nat)
    requires Decided(n0, d, k, n, q) && d > 0 && (k == 0 || n == 0)
    ensures q == n0 / d
  {
    DivModUnique(n0, d, q, n);
  }

  /** One compare, subtract and set decides one more bit. */
  lemma DecideBit(n0: nat, d: nat, k: nat, n: nat, q: nat)
    requires Decided(n0, d, k + 1, n, q)
    ensures n < d * Pow2(k) ==> Decided(n0, d, k, n, q)
    ensures n >= d * Pow2(k) ==> Decided(n0, d, k, n - d * Pow2(k), Or(q, Pow2(k)))
  {
    var p, h := Pow2(k), Shr(q, k + 1);
    TwiceMul(h, p);
    TwiceMul(d, p);
    hide Shr, Pow2, Or;
    if n < d * p {
      ShrMultiple(2 * h, k);
    } else {
      SetBit(q, k);
      Distribute(q, p, d);
    }
  }

  lemma Distribute(q: nat, p: nat, d: nat)
    ensures (q + p) * d == q * d + d * p
  {
  }

  lemma SetBit(q: nat, k: nat)
    requires Shr(q, k + 1) * Pow2(k + 1) == q
    ensures var r := Or(q, Pow2(k)); r == q + Pow2(k) && Shr(r, k) * Pow2(k) == r
  {
    var p, h := Pow2(k), Shr(q, k + 1);
    MultipleMod(h, Pow2(k + 1));
    OrPow2(q, k);
    TwiceMul(h, p);
    assert (2 * h) * p + p == (2 * h + 1) * p;
    ShrMultiple(2 * h + 1, k);
  }

  lemma ShrMultiple(h: nat, k: nat)
    ensures Shr(h * Pow2(k), k) == h
  {
    ShrIsDiv(h * Pow2(k), k);
    MultipleMod(h, Pow2(k));
  }

  lemma {:induction false} ShrProduct(d: nat, k: nat, j: nat)
    requires j <= k
    ensures Shr(d * Pow2(k), j) == d * Pow2(k - j)
    decreases j
  {
    if j > 0 {
      TwiceMul(d, Pow2(k - 1));
      ShrProduct(d, k - 1, j - 1);
    }
  }

  lemma {:induction false} ShrZero(j: nat)
    ensures Shr(0, j) == 0
  {
    if j > 0 { ShrZero(j - 1); }
  }

  /** A power of two shifted right. */
  lemma {:induction false} ShrPow2(k: nat, j: nat)
    ensures Shr(Pow2(k), j) == if j <= k then Pow2(k - j) else 0
    decreases j
  {
    if j > 0 {
      if k > 0 { ShrPow2(k - 1, j - 1); } else { ShrZero(j - 1); }
    }
  }

  lemma Pow2Below(j: nat, k: nat)
    ensures Pow2(j) < Pow2(k) <==> j < k
  {
    if j < k { Pow2Mono(j, k); } else if k < j { Pow2Mono(k, j); }
  }

  // ---------- ARM_DIV_BODY ----------

  /** The shifts that bring the divisor up to the dividend. */
  method Align(n: nat, d: nat) returns (divisor: nat, curbit: nat, ghost k: nat)
    requires 0 < d < WORD && n < WORD
    ensures divisor == d * Pow2(k) < WORD && curbit == Pow2(k) < WORD && n < 2 * divisor
  {
    hide And, Pow2, Scale, Shl32;
    k := 0;
    TopBits(d);
    AlignStarts(d);
    if And(d, 0xE000_0000) == 0 {
      divisor, curbit, k := Shl32(d, 3), 8, 3;
    } else {
      divisor, curbit := d, 1;
    }
    while divisor < 0x1000_0000 && divisor < n
      invariant divisor == Scale(d, k) < WORD && curbit == Pow2(k) && divisor > 0
      decreases WORD - divisor
    {
      AlignStep(d, k, 4);
      divisor, curbit, k := Shl32(divisor, 4), Shl32(curbit, 4), k + 4;
    }
    while divisor < HALF && divisor < n
      invariant divisor == Scale(d, k) < WORD && curbit == Pow2(k) && divisor > 0
      decreases WORD - divisor
    {
      AlignStep(d, k, 1);
      divisor, curbit, k := Shl32(divisor, 1), Shl32(curbit, 1), k + 1;
    }
    AlignEnds(d, k);
  }

  ghost function Scale(d: nat, k: nat): nat { d * Pow2(k) }

  lemma AlignStarts(d: nat)
    ensures Scale(d, 0) == d && Pow2(0) == 1 && Pow2(3) == 8
    ensures d < 0x2000_0000 ==> Shl32(d, 3) == Scale(d, 3) == 8 * d
  {
    assert Pow2(0) == 1 && Pow2(3) == 8;
    hide Pow2;
  }

  lemma AlignStep(d: nat, k: nat, j: nat)
    requires d > 0 && ((j == 4 && Scale(d, k) < 0x1000_0000) || (j == 1 && Scale(d, k) < HALF))
    ensures Shl32(Scale(d, k), j) == Scale(d, k + j) < WORD && Shl32(Pow2(k), j) == Pow2(k + j)
    ensures Scale(d, k + j) >= 2 * Scale(d, k)
  {
    assert Pow2(4) == 16 && Pow2(1) == 2;
    hide Pow2, Shl32;
    ShiftUp(d, k, j);
  }

  lemma AlignEnds(d: nat, k: nat)
    requires d > 0
    ensures Scale(d, k) == d * Pow2(k) && Pow2(k) <= Scale(d, k)
  {
    hide Pow2;
    MulSpread(0, d, Pow2(k));
  }

  lemma TopBits(d: nat)
    requires d < WORD
    ensures And(d, 0xE000_0000) == 0 <==> d < 0x2000_0000
  {
    WordIsPow2();
    assert Pow2(29) == 0x2000_0000 by { Pow2Add(29, 3); }
    AndHighMask(d, 29, 32);
    ShrIsDiv(d, 29);
  }

  lemma ShiftUp(d: nat, k: nat, j: nat)
    requires d > 0 && 1 <= j <= 4 && d * Pow2(k) * Pow2(j) < WORD
    ensures Pow2(j) >= 2
    ensures Shl32(d * Pow2(k), j) == d * Pow2(k + j) < WORD && Shl32(Pow2(k), j) == Pow2(k + j)
    ensures d * Pow2(k + j) >= 2 * (d * Pow2(k))
    ensures Pow2(4) == 16 && Pow2(1) == 2
  {
    assert Pow2(1) == 2 && Pow2(4) == 16;
    if 1 < j { Pow2Mono(1, j); }
    hide Pow2;
    Pow2Add(k, j);
    Scaled(d, Pow2(k), Pow2(j));
    Shifted(d * Pow2(k), j);
    Shifted(Pow2(k), j);
  }

  lemma Shifted(x: nat, j: nat)
    requires x * Pow2(j) < WORD
    ensures Shl32(x, j) == x * Pow2(j)
  {
    hide Pow2;
  }

  lemma Scaled(d: nat, p: nat, r: nat)
    requires d > 0 && r >= 2
    ensures d * (p * r) == (d * p) * r && p * r <= d * (p * r) && (d * p) * r >= 2 * (d * p)
  {
    MulSpread(0, d, p * r);
    Doubled(d * p, r);
  }

  lemma Doubled(x: nat, r: nat)
    requires r >= 2
    ensures x * r >= 2 * x
  {
    MulSpread(1, r, x);
  }

  /** Four bits of the quotient. */
  method DivideNibble(dividend: nat, divisor: nat, curbit: nat, result: nat, ghost n0: nat, ghost d: nat, ghost k: nat)
    returns (n: nat, q: nat)
    requires d > 0 && divisor == d * Pow2(k) && curbit == Pow2(k) && Decided(n0, d, k + 1, dividend, result)
    ensures Progress(n0, d, k - 3, n, q) && n <= dividend
  {
    hide Decided, Or, Shr;
    n, q := dividend, result;
    assert Progress(n0, d, k + 1, n, q);
    for j := 0 to 4
      invariant Progress(n0, d, k + 1 - j, n, q) && n <= dividend
    {
      NextBit(n0, d, k, j, n, q);
      if n >= Shr(divisor, j) {
        n, q := n - Shr(divisor, j), Or(q, Shr(curbit, j));
      }
    }
  }

  lemma NextBit(n0: nat, d: nat, k: nat, j: nat, n: nat, q: nat)
    requires d > 0 && Progress(n0, d, k + 1 - j, n, q)
    ensures n < Shr(d * Pow2(k), j) ==> Progress(n0, d, k - j, n, q)
    ensures n >= Shr(d * Pow2(k), j) ==>
      Progress(n0, d, k - j, n - Shr(d * Pow2(k), j), Or(q, Shr(Pow2(k), j)))
  {
    hide Decided, Or, Shr;
    ShrPow2(k, j);
    if j <= k {
      ShrProduct(d, k, j);
      DecideBit(n0, d, k - j, n, q);
    } else {
      OrZero(q);
      if j == k + 1 { DecidedAll(n0, d, 0, n, q); }
    }
  }

  /** ARM_DIV_BODY divides. */
  method DivBody(n: nat, d: nat) returns (result: nat)
    requires 0 < d < WORD && n < WORD
    ensures result == n / d
  {
    var divisor, curbit;
    ghost var k;
    divisor, curbit, k := Align(n, d);
    var dividend: nat;
    dividend, result := n, 0;
    ShrZero(k + 1);
    TwiceMul(d, Pow2(k));
    assert Decided(n, d, k + 1, dividend, result);
    hide Decided, Shr, Pow2;
    while true
      invariant divisor == d * Pow2(k) && curbit == Pow2(k) && Decided(n, d, k + 1, dividend, result)
      decreases k
    {
      dividend, result := DivideNibble(dividend, divisor, curbit, result, n, d, k);
      ShrPow2(k, 4);
      if k >= 3 && (dividend == 0 || k == 3) { DecidedAll(n, d, k - 3, dividend, result); }
      if dividend == 0 || Shr(curbit, 4) == 0 {
        return;
      }
      ShrProduct(d, k, 4);
      curbit, divisor := Shr(curbit, 4), Shr(divisor, 4);
      k := k - 4;
    }
  }

  // ---------- ARM_DIV2_ORDER ----------

  /** The logarithm of a power of two, by halving the range. */
  method Div2Order(d: nat, ghost k: nat) returns (order: nat)
    requires d == Pow2(k) < WORD
    ensures order == k
  {
    hide Pow2, Shr;
    OrderBelow(k);
    OrderStep(k, 16);
    ghost var e: nat := k;
    var divisor: nat := d;
    if divisor >= 0x1_0000 {
      divisor, order, e := Shr(divisor, 16), 16, k - 16;
    } else {
      order := 0;
    }
    assert divisor == Pow2(e) && order + e == k && e < 16;
    OrderStep(e, 8);
    if divisor >= 0x100 {
      divisor, order, e := Shr(divisor, 8), order + 8, e - 8;
    }
    assert divisor == Pow2(e) && order + e == k && e < 8;
    OrderStep(e, 4);
    if divisor >= 0x10 {
      divisor, order, e := Shr(divisor, 4), order + 4, e - 4;
    }
    assert divisor == Pow2(e) && order + e == k && e < 4;
    LastOrder(e);
    if divisor > 4 {
      order := order + 3;
    } else {
      order := order + divisor / 2;
    }
  }

  lemma LastOrder(e: nat)
    requires e < 4
    ensures e == if Pow2(e) > 4 then 3 else Pow2(e) / 2
  {
    assert Pow2(1) == 2 && Pow2(2) == 4 && Pow2(3) == 8;
  }

  lemma OrderBelow(k: nat)
    requires Pow2(k) < WORD
    ensures k < 32
  {
    hide Pow2;
    WordIsPow2();
    Pow2Below(k, 32);
  }

  lemma OrderStep(e: nat, j: nat)
    requires j == 16 || j == 8 || j == 4
    ensures Pow2(e) >= (if j == 16 then 0x1_0000 else if j == 8 then 0x100 else 0x10) <==> e >= j
    ensures e >= j ==> Shr(Pow2(e), j) == Pow2(e - j)
  {
    assert Pow2(8) == 0x100;
    Pow2Add(8, 8);
    Pow2Below(e, j);
    ShrPow2(e, j);
  }

  // ---------- __aeabi_uidiv, __aeabi_uidivmod ----------

  function UDiv(n: nat, d: nat): nat {
    if d == 0 then 0 else n / d
  }

  method UnsignedDivide(n: nat, d: nat) returns (q: nat)
    requires n < WORD && d < WORD
    ensures q == UDiv(n, d)
  {
    if d == 1 {
      return n;
    }
    if d < 1 {
      return 0;
    }
    if n <= d {
      if n < d { DivModUnique(n, d, 0, n); } else { DivModUnique(n, d, 1, 0); }
      return if n == d then 1 else 0;
    }
    if And(d, d - 1) == 0 {
      q := ShiftDivide(n, d);
    } else {
      q := DivBody(n, d);
    }
  }

  method ShiftDivide(n: nat, d: nat) returns (q: nat)
    requires 0 < d < WORD && And(d, d - 1) == 0
    ensures q == n / d
  {
    ghost var k := PowerOfTwoTest(d);
    var order := Div2Order(d, k);
    q := Shr(n, order);
    ShrIsDiv(n, k);
  }

  method UnsignedDivMod(n: nat, d: nat) returns (q: nat, r: nat)
    requires n < WORD && d < WORD
    ensures n == q * d + r && (d != 0 ==> r < d) && (d == 0 ==> q == 0)
  {
    q := UnsignedDivide(n, d);
    var m := (q * d) % WORD;
    assert q * d <= n by { if d != 0 { assert n == (n / d) * d + n % d; } }
    r := Sub32(n, m);
  }

  // ---------- __aeabi_idiv, __aeabi_idivmod ----------

  predicate Negative(x: nat) { x >= HALF }

  /** The number a register denotes in two's complement. */
  function Signed(x: nat): int {
    if Negative(x) then x - WORD else x
  }

  function Abs(a: int): nat {
    if a < 0 then -a else a
  }

  /** Division truncated toward zero. */
  function Trunc(a: int, b: int): int
    requires b != 0
  {
    if (a < 0) == (b < 0) then Abs(a) / Abs(b) else -(Abs(a) / Abs(b))
  }

  /** Truncated division is the one whose remainder is smaller than the divisor and has the
      sign of the dividend. */
  lemma TruncRemainder(a: int, b: int)
    requires b != 0
    ensures var r := a - Trunc(a, b) * b; Abs(r) < Abs(b) && (r == 0 || (r < 0) == (a < 0))
  {
    var m, n := Abs(a), Abs(b);
    var q, rest := DivMod(m, n);
    SignedProduct(a, b, q, n);
  }

  lemma DivMod(m: nat, n: nat) returns (q: nat, rest: nat)
    requires n > 0
    ensures q == m / n && m == q * n + rest && rest < n
  {
    q, rest := m / n, m % n;
  }

  /** The quotient with its sign, times the divisor, has the sign of the dividend. */
  lemma SignedProduct(a: int, b: int, q: nat, n: nat)
    requires n == Abs(b)
    ensures var t: int := if (a < 0) == (b < 0) then q else -(q as int); t * b == if a < 0 then -(q * n) else q * n
  {
  }

  function Negate(x: nat): nat
    requires x <= WORD
  {
    Sub32(0, x)
  }

  lemma TopBit(x: nat)
    requires x < WORD
    ensures Bit(x, 31) <==> Negative(x)
  {
    WordIsPow2();
    BitIsQuotient(x, 31);
  }

  /** The exclusive or of two registers is negative when their signs differ. */
  lemma XorSign(a: nat, b: nat)
    requires a < WORD && b < WORD
    ensures Xor(a, b) < WORD && (Negative(Xor(a, b)) <==> Negative(a) != Negative(b))
    ensures Negative(Xor(Xor(a, b), a)) <==> Negative(b)
    ensures Xor(Xor(a, b), a) < WORD
  {
    WordIsPow2();
    XorBelow(a, b, 32);
    XorBelow(Xor(a, b), a, 32);
    XorBits(a, b, 31);
    XorBits(Xor(a, b), a, 31);
    TopBit(a);
    TopBit(b);
    TopBit(Xor(a, b));
    TopBit(Xor(Xor(a, b), a));
  }

  /** Arithmetic shift right by 31. */
  function SignMask(x: nat): nat {
    if Negative(x) then WORD - 1 else 0
  }

  lemma OrOne(x: nat)
    requires x == 0 || x == WORD - 1
    ensures Or(x, 1) == if x == 0 then 1 else WORD - 1
  {
    OrZero(x / 2);
    assert Or(x, 1) == 2 * Or(x / 2, 0) + 1;
  }

  /** A quotient of magnitudes with the sign put back, as a register. */
  lemma Resigned(a: int, b: int, q: nat)
    requires b != 0 && q == Abs(a) / Abs(b) < WORD
    ensures Trunc(a, b) % WORD == if (a < 0) != (b < 0) then Negate(q) else q
  {
    Congruent(WORD - q, 0 - q, 1);
  }

  function Magnitude(x: nat): nat
    requires x <= WORD
  {
    if Negative(x) then Negate(x) else x
  }

  lemma MagnitudeIsAbs(x: nat)
    requires x < WORD
    ensures Magnitude(x) == Abs(Signed(x)) < WORD && (Negative(x) <==> Signed(x) < 0)
    ensures (Signed(x) == 0 <==> x == 0) && (Magnitude(x) == 0 <==> x == 0)
  {
  }

  method SignedDivide(n: nat, d: nat) returns (q: nat)
    requires n < WORD && d < WORD
    ensures d == 0 ==> q == 0
    ensures d != 0 ==> q == Trunc(Signed(n), Signed(d)) % WORD
  {
    hide Xor, And, Or, Trunc, Negate, Signed, Abs, Negative, Magnitude;
    var sign := Xor(n, d);
    XorSign(n, d);
    if d == 0 {
      return 0;
    }
    MagnitudeIsAbs(d);
    MagnitudeIsAbs(n);
    var r1, r3 := Magnitude(d), Magnitude(n);
    if r1 == 1 {
      UnitDivide(n, d);
      return if Negative(Xor(sign, n)) then Negate(n) else n;
    }
    if r3 <= r1 {
      if r3 < r1 { DivModUnique(r3, r1, 0, r3); } else { DivModUnique(r3, r1, 1, 0); }
      Resigned(Signed(n), Signed(d), if r3 == r1 then 1 else 0);
      SignedOne(sign);
      return if r3 == r1 then Or(SignMask(sign), 1) else 0;
    }
    if And(r1, r1 - 1) == 0 {
      q := ShiftDivide(r3, r1);
    } else {
      q := DivBody(r3, r1);
    }
    QuotientFits(r3, r1);
    Resigned(Signed(n), Signed(d), q);
    q := if Negative(sign) then Negate(q) else q;
  }

  lemma UnitDivide(n: nat, d: nat)
    requires n < WORD && d < WORD && Magnitude(d) == 1
    ensures Signed(d) != 0 && Trunc(Signed(n), Signed(d)) % WORD == if Negative(d) then Negate(n) else n
  {
    Resigned(Signed(n), Signed(d), Abs(Signed(n)));
  }

  lemma SignedOne(sign: nat)
    ensures Or(SignMask(sign), 1) == (if Negative(sign) then Negate(1) else 1) && Negate(0) == 0
  {
    OrOne(SignMask(sign));
  }

  lemma QuotientFits(n: nat, d: nat)
    requires d > 0
    ensures n / d <= n
  {
    MulSpread(0, d, n / d);
  }

  method SignedDivMod(n: nat, d: nat) returns (q: nat, r: nat)
    requires n < WORD && d < WORD
    ensures d == 0 ==> q == 0 && r == n
    ensures d != 0 ==> q == Trunc(Signed(n), Signed(d)) % WORD
                       && Signed(r) == Signed(n) - Trunc(Signed(n), Signed(d)) * Signed(d)
  {
    hide Trunc;
    q := SignedDivide(n, d);
    var m := (q * d) % WORD;
    r := Sub32(n, m);
    if d != 0 {
      ghost var a, b := Signed(n), Signed(d);
      RegisterRemainder(n, d, q, Trunc(a, b));
      TruncRemainder(a, b);
      SignedIs(r, a - Trunc(a, b) * b);
    }
  }

  lemma SignedIs(r: nat, v: int)
    requires r == v % WORD && -HALF < v < HALF
    ensures Signed(r) == v
  {
    if v < 0 { Congruent(v + WORD, v, 1); }
  }

  /** The remainder computed modulo 2^32 is congruent to the exact one. */
  lemma RegisterRemainder(n: nat, d: nat, q: nat, t: int)
    requires n < WORD && d < WORD && q == t % WORD
    ensures Sub32(n, (q * d) % WORD) == (Signed(n) - t * Signed(d)) % WORD
  {
    var b, i, j := Signed(d), t / WORD, if Negative(d) then 1 else 0;
    assert t == q + i * WORD && d == b + j * WORD;
    assert q * d == q * b + q * j * WORD;
    assert t * b == q * b + i * WORD * b == q * b + (i * b) * WORD;
    var c := (q * d) / WORD;
    var m := (q * d) % WORD;
    assert q * d == c * WORD + m;
    var e := c - q * j + i * b;
    assert t * b == m + e * WORD;
    var h := if Negative(n) then 1 else 0;
    Congruent(n + WORD - m, Signed(n) - t * b, 1 + h + e);
  }

  lemma Congruent(x: int, y: int, m: int)
    requires x == y + m * WORD
    ensures x % WORD == y % WORD
  {
  }
}
