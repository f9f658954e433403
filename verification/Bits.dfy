/** Unsigned machine words as naturals: the bit operators the kernel applies to
    sizes, queue indices and priority bitmaps, each tied to arithmetic. */
module Bits {

  const UINT32_MAX: nat := 0xFFFF_FFFF
  const INT32_MAX: nat := 0x7FFF_FFFF

  function Pow2(k: nat): (p: nat)
    ensures p >= 1
  {
    if k == 0 then 1 else 2 * Pow2(k - 1)
  }

  /** Is bit `i` of `x` set? */
  predicate Bit(x: nat, i: nat) {
    if i == 0 then x % 2 == 1 else Bit(x / 2, i - 1)
  }

  function And(x: nat, y: nat): nat {
    if x == 0 || y == 0 then 0
    else (if x % 2 == 1 && y % 2 == 1 then 1 else 0) + 2 * And(x / 2, y / 2)
  }

  function Or(x: nat, y: nat): nat {
    if x == 0 then y
    else if y == 0 then x
    else (if x % 2 == 1 || y % 2 == 1 then 1 else 0) + 2 * Or(x / 2, y / 2)
  }

  /** The complement of `x` in a word of `w` bits. */
  function Not(w: nat, x: nat): nat
    requires x < Pow2(w)
  {
    Pow2(w) - 1 - x
  }

  /** Index of the highest set bit: the exact integer logarithm. */
  function Log2(x: nat): nat
    requires x > 0
  {
    if x == 1 then 0 else 1 + Log2(x / 2)
  }

  /** The macro N_IS_POWEROF_2. */
  predicate IsPowerOf2(x: nat) {
    x != 0 && And(x, x - 1) == 0
  }

  /** The macro NALIGN_UP in a word of `w` bits. */
  function AlignUp(w: nat, num: nat, align: nat): nat
    requires 0 < align <= Pow2(w)
  {
    And(num + align - 1, Not(w, align - 1))
  }

  // ---- bit-level laws ----

  lemma {:induction false} ZeroBits(i: nat)
    ensures !Bit(0, i)
  {
    if i > 0 { ZeroBits(i - 1); }
  }

  /** A number is its lowest bit and twice the rest. */
  lemma Halves(b: nat, h: nat)
    requires b <= 1
    ensures (b + 2 * h) / 2 == h && (b + 2 * h) % 2 == b
  {
  }

  lemma AndHalves(x: nat, y: nat)
    ensures And(x, y) / 2 == And(x / 2, y / 2)
    ensures And(x, y) % 2 == 1 <==> x % 2 == 1 && y % 2 == 1
  {
    if x != 0 && y != 0 {
      Halves(if x % 2 == 1 && y % 2 == 1 then 1 else 0, And(x / 2, y / 2));
    }
  }

  lemma OrHalves(x: nat, y: nat)
    ensures Or(x, y) / 2 == Or(x / 2, y / 2)
    ensures Or(x, y) % 2 == 1 <==> x % 2 == 1 || y % 2 == 1
  {
    if x != 0 && y != 0 {
      Halves(if x % 2 == 1 || y % 2 == 1 then 1 else 0, Or(x / 2, y / 2));
    }
  }

  lemma {:induction false} AndBit(x: nat, y: nat, i: nat)
    ensures Bit(And(x, y), i) <==> Bit(x, i) && Bit(y, i)
  {
    hide And;
    AndHalves(x, y);
    if i > 0 { AndBit(x / 2, y / 2, i - 1); }
  }

  lemma {:induction false} OrBit(x: nat, y: nat, i: nat)
    ensures Bit(Or(x, y), i) <==> Bit(x, i) || Bit(y, i)
  {
    hide Or;
    OrHalves(x, y);
    if i > 0 { OrBit(x / 2, y / 2, i - 1); }
  }

  lemma {:induction false} Pow2Bit(k: nat, i: nat)
    ensures Bit(Pow2(k), i) <==> i == k
  {
    if k == 0 {
      if i > 0 { ZeroBits(i - 1); }
    } else if i > 0 {
      Pow2Bit(k - 1, i - 1);
    }
  }

  lemma {:induction false} NotBit(w: nat, x: nat, i: nat)
    requires x < Pow2(w) && i < w
    ensures Bit(Not(w, x), i) <==> !Bit(x, i)
  {
    if i > 0 {
      assert Not(w, x) / 2 == Not(w - 1, x / 2);
      NotBit(w - 1, x / 2, i - 1);
    }
  }

  /** A word below 2^w has no bit at or above position w. */
  lemma {:induction false} HighBitsClear(w: nat, x: nat, i: nat)
    requires x < Pow2(w) && w <= i
    ensures !Bit(x, i)
  {
    if w == 0 {
      ZeroBits(i);
    } else {
      HighBitsClear(w - 1, x / 2, i - 1);
    }
  }

  lemma {:induction false} Log2IsHighest(x: nat)
    requires x > 0
    ensures Bit(x, Log2(x))
    ensures forall j | j > Log2(x) :: !Bit(x, j)
  {
    if x == 1 {
      forall j: nat | j > 0 ensures !Bit(x, j) { ZeroBits(j - 1); }
    } else {
      Log2IsHighest(x / 2);
      forall j | j > Log2(x) ensures !Bit(x, j) { assert !Bit(x / 2, j - 1); }
    }
  }

  lemma {:induction false} AndBound(x: nat, y: nat)
    ensures And(x, y) <= x
    decreases x
  {
    if x != 0 && y != 0 { AndBound(x / 2, y / 2); }
  }

  lemma {:induction false} OrAtLeast(x: nat, y: nat)
    ensures Or(x, y) >= x
  {
    if x != 0 && y != 0 { OrAtLeast(x / 2, y / 2); }
  }

  lemma {:induction false} OrBound(w: nat, x: nat, y: nat)
    requires x < Pow2(w) && y < Pow2(w)
    ensures Or(x, y) < Pow2(w)
  {
    if x != 0 && y != 0 {
      OrBound(w - 1, x / 2, y / 2);
    }
  }

  // ---- masks keep or clear the low bits ----

  /** The number made of the low `k` bits of `x`: x mod 2^k. */
  function Low(k: nat, x: nat): (r: nat)
    ensures r < Pow2(k) && r <= x
  {
    if k == 0 then 0 else x % 2 + 2 * Low(k - 1, x / 2)
  }

  /** The low `k` bits of `x` are clear: `x` is a multiple of 2^k. */
  predicate Aligned(k: nat, x: nat) {
    k == 0 || (x % 2 == 0 && Aligned(k - 1, x / 2))
  }

  lemma {:induction false} Pow2Monotone(a: nat, b: nat)
    requires a <= b
    ensures Pow2(a) <= Pow2(b)
  {
    if a < b { Pow2Monotone(a, b - 1); }
  }

  lemma Pow2Values()
    ensures Pow2(30) == 0x4000_0000 && Pow2(31) == 0x8000_0000 && Pow2(32) == 0x1_0000_0000
  {
    assert Pow2(6) == 64;
    assert Pow2(12) == 4096;
    assert Pow2(18) == 0x4_0000;
    assert Pow2(24) == 0x100_0000;
    assert Pow2(30) == 0x4000_0000;
  }

  /** x & (2^k - 1) keeps the low k bits. */
  lemma {:induction false} MaskIsLow(k: nat, x: nat)
    ensures And(x, Pow2(k) - 1) == Low(k, x)
  {
    if k > 0 {
      hide And;
      MaskIsLow(k - 1, x / 2);
      Halves(1, Pow2(k - 1) - 1);
      AndHalves(x, Pow2(k) - 1);
    }
  }

  /** Below twice the modulus a mask subtracts the modulus at most once. */
  lemma {:induction false} LowWraps(k: nat, x: nat)
    requires x < 2 * Pow2(k)
    ensures Low(k, x) == if x < Pow2(k) then x else x - Pow2(k)
  {
    if k > 0 { LowWraps(k - 1, x / 2); }
  }

  /** The all-ones word masks to all ones: how a wrapped 0 - 1 is reduced. */
  lemma {:induction false} LowOfOnes(k: nat, w: nat)
    requires k <= w
    ensures Low(k, Pow2(w) - 1) == Pow2(k) - 1
  {
    if k > 0 {
      assert (Pow2(w) - 1) / 2 == Pow2(w - 1) - 1;
      LowOfOnes(k - 1, w - 1);
    }
  }

  /** The complement of a longer mask is twice the complement of the shorter one. */
  lemma NotMaskHalf(w: nat, k: nat)
    requires 0 < k <= w
    ensures Pow2(k) <= Pow2(w) && Pow2(k - 1) <= Pow2(w - 1)
    ensures Not(w, Pow2(k) - 1) == 2 * Not(w - 1, Pow2(k - 1) - 1)
  {
    Pow2Monotone(k, w);
    Pow2Monotone(k - 1, w - 1);
  }

  /** x & ~(2^k - 1) clears the low k bits. */
  lemma {:induction false} MaskClearsLow(w: nat, k: nat, x: nat)
    requires k <= w && x < Pow2(w)
    ensures Pow2(k) <= Pow2(w)
    ensures And(x, Not(w, Pow2(k) - 1)) == x - Low(k, x)
  {
    hide And, Not, Low;
    Pow2Monotone(k, w);
    if k == 0 {
      MaskNone(w, x);
    } else {
      MaskClearsLow(w - 1, k - 1, x / 2);
      ClearsLowBit(w, k, x);
    }
  }

  lemma MaskNone(w: nat, x: nat)
    requires x < Pow2(w)
    ensures And(x, Not(w, Pow2(0) - 1)) == x - Low(0, x)
  {
    hide And;
    MaskIsLow(w, x);
    LowOfSmall(w, x);
  }

  lemma ClearsLowBit(w: nat, k: nat, x: nat)
    requires 0 < k <= w && x < Pow2(w) && Pow2(k - 1) <= Pow2(w - 1)
    requires And(x / 2, Not(w - 1, Pow2(k - 1) - 1)) == x / 2 - Low(k - 1, x / 2)
    ensures Pow2(k) <= Pow2(w) && And(x, Not(w, Pow2(k) - 1)) == x - Low(k, x)
  {
    hide And, Not;
    NotMaskHalf(w, k);
    AndEven(x, Not(w - 1, Pow2(k - 1) - 1));
  }

  lemma {:induction false} ClearedIsAligned(k: nat, x: nat)
    ensures Aligned(k, x - Low(k, x))
  {
    if k > 0 {
      ClearedIsAligned(k - 1, x / 2);
      var y := x / 2 - Low(k - 1, x / 2);
      assert x - Low(k, x) == 2 * y;
      assert (2 * y) / 2 == y;
    }
  }

  lemma AndEven(x: nat, h: nat)
    ensures And(x, 2 * h) == 2 * And(x / 2, h)
  {
    hide And;
    Halves(0, h);
    AndHalves(x, 2 * h);
  }

  lemma {:induction false} LowOfSmall(k: nat, x: nat)
    requires x < Pow2(k)
    ensures Low(k, x) == x
  {
    if k > 0 { LowOfSmall(k - 1, x / 2); }
  }

  lemma {:induction false} AlignedSum(k: nat, x: nat, y: nat)
    requires Aligned(k, x) && Aligned(k, y)
    ensures Aligned(k, x + y)
    ensures x >= y ==> Aligned(k, x - y)
  {
    if k > 0 {
      AlignedSum(k - 1, x / 2, y / 2);
      assert (x + y) / 2 == x / 2 + y / 2;
      assert x >= y ==> (x - y) / 2 == x / 2 - y / 2;
    }
  }

  lemma {:induction false} AlignedPow2(k: nat)
    ensures Aligned(k, Pow2(k)) && Aligned(k, 0)
  {
    if k > 0 { AlignedPow2(k - 1); }
  }

  /** A positive multiple of 2^k is at least 2^k. */
  lemma {:induction false} AlignedAtLeast(k: nat, x: nat)
    requires Aligned(k, x) && x > 0
    ensures x >= Pow2(k)
  {
    if k > 0 { AlignedAtLeast(k - 1, x / 2); }
  }

  /** NALIGN_UP yields a multiple of a power of two, less than one step above its argument. */
  lemma AlignUpRounds(w: nat, num: nat, k: nat)
    requires k <= w && num + Pow2(k) - 1 < Pow2(w)
    ensures Pow2(k) <= Pow2(w)
    ensures Aligned(k, AlignUp(w, num, Pow2(k))) && num <= AlignUp(w, num, Pow2(k)) < num + Pow2(k)
  {
    hide And, Low, Aligned, Pow2, Not;
    Pow2Monotone(k, w);
    var x := num + Pow2(k) - 1;
    MaskClearsLow(w, k, x);
    ClearedIsAligned(k, x);
    assert AlignUp(w, num, Pow2(k)) == x - Low(k, x);
  }

  /** Of the multiples not below `num`, one less than a step above it is the least. */
  lemma AlignedLeast(k: nat, num: nat, r: nat, y: nat)
    requires Aligned(k, r) && Aligned(k, y) && num <= r < num + Pow2(k) && num <= y
    ensures r <= y
  {
    if y < r {
      AlignedSum(k, r, y);
      AlignedAtLeast(k, r - y);
    }
  }

  /** NALIGN_UP is the least multiple of a power of two that is not below its argument. */
  lemma AlignUpIsLeast(w: nat, num: nat, k: nat, y: nat)
    requires k <= w && num + Pow2(k) - 1 < Pow2(w) && Aligned(k, y) && num <= y
    ensures Pow2(k) <= Pow2(w) && AlignUp(w, num, Pow2(k)) <= y
  {
    AlignUpRounds(w, num, k);
    AlignedLeast(k, num, AlignUp(w, num, Pow2(k)), y);
  }

  /** N_IS_POWEROF_2 accepts exactly the powers of two. */
  lemma PowerOf2Test(x: nat)
    ensures IsPowerOf2(x) <==> exists k: nat :: x == Pow2(k)
  {
    if IsPowerOf2(x) {
      var k := PowerOf2Exponent(x);
    }
    forall k: nat | x == Pow2(k) ensures IsPowerOf2(x) { Pow2Passes(k); }
  }

  lemma {:induction false} PowerOf2Exponent(x: nat) returns (k: nat)
    requires IsPowerOf2(x)
    ensures x == Pow2(k)
  {
    k := 0;
    if x % 2 == 1 {
      AndSelf(x / 2);
    } else {
      assert (x - 1) / 2 == x / 2 - 1;
      k := PowerOf2Exponent(x / 2);
      k := k + 1;
    }
  }

  lemma {:induction false} Pow2Passes(k: nat)
    ensures IsPowerOf2(Pow2(k))
  {
    if k > 0 {
      Pow2Passes(k - 1);
      assert (Pow2(k) - 1) / 2 == Pow2(k - 1) - 1;
    }
  }

  lemma {:induction false} AndSelf(x: nat)
    ensures And(x, x) == x
  {
    if x > 0 { AndSelf(x / 2); }
  }

  // ---- splitting a number into a word index and a bit index ----

  /** x >> k. */
  function High(k: nat, x: nat): nat {
    if k == 0 then x else High(k - 1, x / 2)
  }

  /** g << k. */
  function Shl(k: nat, g: nat): nat {
    if k == 0 then g else 2 * Shl(k - 1, g)
  }

  /** (g << k) | i for a bit index `i` below 2^k. */
  function Join(k: nat, g: nat, i: nat): nat {
    Or(Shl(k, g), i)
  }

  lemma {:induction false} JoinSplits(k: nat, g: nat, i: nat)
    requires i < Pow2(k)
    ensures High(k, Join(k, g, i)) == g && Low(k, Join(k, g, i)) == i
  {
    if k > 0 {
      JoinSplits(k - 1, g, i / 2);
      JoinHalf(k, g, i);
    }
  }

  lemma JoinHalf(k: nat, g: nat, i: nat)
    requires k > 0
    ensures Join(k, g, i) == 2 * Join(k - 1, g, i / 2) + i % 2
  {
    var s := Shl(k - 1, g);
    assert Shl(k, g) == 2 * s;
    assert (2 * s) / 2 == s && (2 * s) % 2 == 0;
  }

  lemma {:induction false} SplitJoins(k: nat, x: nat)
    ensures Join(k, High(k, x), Low(k, x)) == x
  {
    if k > 0 {
      SplitJoins(k - 1, x / 2);
      JoinHalf(k, High(k, x), Low(k, x));
    }
  }

  /** Numbers are ordered by their high part first. */
  lemma {:induction false} SplitOrder(k: nat, x: nat, y: nat)
    ensures x < y <==> High(k, x) < High(k, y) || (High(k, x) == High(k, y) && Low(k, x) < Low(k, y))
    ensures x == y <==> High(k, x) == High(k, y) && Low(k, x) == Low(k, y)
  {
    if k > 0 { SplitOrder(k - 1, x / 2, y / 2); }
  }

  lemma {:induction false} HighOfSmall(k: nat, x: nat)
    requires x < Pow2(k)
    ensures High(k, x) == 0
  {
    if k > 0 { HighOfSmall(k - 1, x / 2); }
  }

  lemma {:induction false} HighPlus(k: nat, x: nat)
    ensures High(k, x + Pow2(k)) == High(k, x) + 1
  {
    if k > 0 {
      assert (x + Pow2(k)) / 2 == x / 2 + Pow2(k - 1);
      HighPlus(k - 1, x / 2);
    }
  }

  lemma {:induction false} LowHigh(k: nat, x: nat)
    ensures x == Low(k, x) + Shl(k, High(k, x))
  {
    if k > 0 { LowHigh(k - 1, x / 2); }
  }

  lemma OrNeutral(x: nat)
    ensures Or(x, 0) == x && Or(0, x) == x
  {
  }

  /** Or-ing with a shifted number leaves the low bits alone. */
  lemma {:induction false} OrShifted(k: nat, x: nat, h: nat)
    ensures Or(x, Shl(k, h)) == Low(k, x) + Shl(k, Or(High(k, x), h))
  {
    if k > 0 {
      hide Or;
      OrShifted(k - 1, x / 2, h);
      Halves(0, Shl(k - 1, h));
      OrHalves(x, Shl(k, h));
    }
  }

  /** Or-ing with a mask of ones fills the low bits. */
  lemma {:induction false} OrOnes(k: nat, x: nat)
    ensures Or(x, Pow2(k) - 1) == Pow2(k) - 1 + Shl(k, High(k, x))
  {
    if k == 0 {
      OrNeutral(x);
    } else {
      hide Or;
      OrOnes(k - 1, x / 2);
      Halves(1, Pow2(k - 1) - 1);
      OrHalves(x, Pow2(k) - 1);
    }
  }

  lemma {:induction false} HighHigh(k: nat, m: nat, x: nat)
    ensures High(m, High(k, x)) == High(k + m, x)
  {
    if k > 0 { HighHigh(k - 1, m, x / 2); }
  }
}
