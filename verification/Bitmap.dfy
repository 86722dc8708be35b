/** The bit operations of kernel/bitops.c on byte-addressed memory.  A bitmap is a
    range of a byte array; `base` is the byte its pointer argument points to. */
module Bitmap {
  import opened Words

  /** Bit `i` of memory, counted from the first byte. */
  predicate Test(m: seq<Byte>, i: nat)
    requires i / 8 < |m|
  {
    Bit(m[i / 8], i % 8)
  }

  function Toggled(x: Byte, k: nat): (r: Byte)
    requires k < 8
    ensures forall j: nat :: Bit(r, j) <==> Bit(x, j) != (j == k)
  {
    assert Pow2(8) == 256;
    Pow2Mono(k, 8);
    XorBelow(x, Pow2(k), 8);
    assert forall j: nat :: Bit(Xor(x, Pow2(k)), j) <==> Bit(x, j) != (j == k) by {
      forall j: nat
        ensures Bit(Xor(x, Pow2(k)), j) <==> Bit(x, j) != (j == k)
      {
        XorBits(x, Pow2(k), j);
        Pow2Bits(k, j);
      }
    }
    Xor(x, Pow2(k))
  }

  function WithBit(x: Byte, k: nat): (r: Byte)
    requires k < 8
    ensures forall j: nat :: Bit(r, j) <==> Bit(x, j) || j == k
  {
    assert Pow2(8) == 256;
    Pow2Mono(k, 8);
    OrBelow(x, Pow2(k), 8);
    assert forall j: nat :: Bit(Or(x, Pow2(k)), j) <==> Bit(x, j) || j == k by {
      forall j: nat
        ensures Bit(Or(x, Pow2(k)), j) <==> Bit(x, j) || j == k
      {
        OrBits(x, Pow2(k), j);
        Pow2Bits(k, j);
      }
    }
    Or(x, Pow2(k))
  }

  method ChangeBit(nr: nat, mem: array<Byte>, base: nat)
    requires base + nr / 8 < mem.Length
    modifies mem
    ensures forall i: nat :: i / 8 < mem.Length ==>
      (Test(mem[..], i) <==> old(Test(mem[..], i)) != (i == 8 * base + nr))
  {
    var oldvalue := mem[base + nr / 8];
    mem[base + nr / 8] := Toggled(oldvalue, nr % 8);
  }

  method TestAndChangeBit(nr: nat, mem: array<Byte>, base: nat) returns (was: nat)
    requires base + nr / 8 < mem.Length
    modifies mem
    ensures was != 0 <==> old(Test(mem[..], 8 * base + nr))
    ensures forall i: nat :: i / 8 < mem.Length ==>
      (Test(mem[..], i) <==> old(Test(mem[..], i)) != (i == 8 * base + nr))
  {
    var oldvalue := mem[base + nr / 8];
    mem[base + nr / 8] := Toggled(oldvalue, nr % 8);
    hide And, Pow2;
    AndPow2(oldvalue, nr % 8);
    was := And(oldvalue, Pow2(nr % 8));
    SameByte(base, nr);
    hide Bit;
  }

  lemma SameByte(base: nat, nr: nat)
    ensures (8 * base + nr) / 8 == base + nr / 8 && (8 * base + nr) % 8 == nr % 8
  {
  }

  method TestAndSetBit(nr: nat, mem: array<Byte>, base: nat) returns (was: nat)
    requires base + nr / 8 < mem.Length
    modifies mem
    ensures was != 0 <==> old(Test(mem[..], 8 * base + nr))
    ensures forall i: nat :: i / 8 < mem.Length ==>
      (Test(mem[..], i) <==> old(Test(mem[..], i)) || i == 8 * base + nr)
  {
    var oldvalue := mem[base + nr / 8];
    mem[base + nr / 8] := WithBit(oldvalue, nr % 8);
    was := And(oldvalue, Pow2(nr % 8));
    AndPow2(oldvalue, nr % 8);
  }

  // ---------- test_bit reads 32-bit words of the same memory ----------

  /** The little-endian 32-bit word that starts at byte `a`. */
  function LoadLong(m: seq<Byte>, a: nat): nat
    requires a + 3 < |m|
  {
    m[a] as nat + 256 * (m[a + 1] as nat + 256 * (m[a + 2] as nat + 256 * m[a + 3] as nat))
  }

  lemma {:induction false} BitOfPair(x: nat, y: nat, j: nat, k: nat)
    requires x < Pow2(j)
    ensures Bit(x + Pow2(j) * y, k) <==> if k < j then Bit(x, k) else Bit(y, k - j)
    decreases j
  {
    if j > 0 {
      var h := Pow2(j - 1) * y;
      assert Pow2(j) * y == 2 * h;
      assert (x + 2 * h) / 2 == x / 2 + h && (x + 2 * h) % 2 == x % 2;
      if k > 0 { BitOfPair(x / 2, y, j - 1, k - 1); }
    }
  }

  method TestBit(nr: nat, mem: array<Byte>) returns (isSet: bool)
    requires 4 * (nr / 32) + 3 < mem.Length
    ensures isSet <==> Test(mem[..], nr)
  {
    var a := 4 * (nr / 32);
    var mask := Pow2(nr % 32);
    isSet := And(LoadLong(mem[..], a), mask) != 0;
    LongBits(mem[..], nr);
  }

  lemma FourBytes(b0: Byte, b1: Byte, b2: Byte, b3: Byte, k: nat)
    requires k < 32
    ensures Bit(b0 as nat + 256 * (b1 as nat + 256 * (b2 as nat + 256 * b3 as nat)), k)
      <==> Bit([b0, b1, b2, b3][k / 8], k % 8)
  {
    var w2: nat := b2 as nat + 256 * b3 as nat;
    var w1: nat := b1 as nat + 256 * w2;
    assert Pow2(8) == 256;
    BitOfPair(b0, w1, 8, k);
    if k >= 8 {
      BitOfPair(b1, w2, 8, k - 8);
      if k >= 16 { BitOfPair(b2, b3, 8, k - 16); }
    }
  }

  /** The word view and the byte view of a bitmap agree. */
  lemma LongBits(m: seq<Byte>, nr: nat)
    requires 4 * (nr / 32) + 3 < |m|
    ensures And(LoadLong(m, 4 * (nr / 32)), Pow2(nr % 32)) != 0 <==> Test(m, nr)
  {
    var a, k := 4 * (nr / 32), nr % 32;
    AndPow2(LoadLong(m, a), k);
    FourBytes(m[a], m[a + 1], m[a + 2], m[a + 3], k);
    assert nr / 8 == a + k / 8 && nr % 8 == k % 8;
    assert [m[a], m[a + 1], m[a + 2], m[a + 3]][k / 8] == m[a + k / 8];
  }
}
