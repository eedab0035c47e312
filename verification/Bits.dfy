/**
 Unsigned machine words as natural numbers, and the bitwise operators on them. Bit 0 is the least significant.
 A word of n bits is a number below Pow2(n); its complement is Pow2(n) - 1 - x.
 */
module Bits {

  type byte = x: int | 0 <= x < 256

  function Pow2(n: nat): (p: nat)
    ensures p > 0
  {
    if n == 0 then 1 else 2 * Pow2(n - 1)
  }

  lemma PowersOfTwo()
    ensures Pow2(7) == 0x80 && Pow2(8) == 0x100
    ensures Pow2(15) == 0x8000 && Pow2(16) == 0x1_0000
    ensures Pow2(31) == 0x8000_0000 && Pow2(32) == 0x1_0000_0000
  {
    assert Pow2(12) == 0x1000;
    assert Pow2(16) == 0x1_0000;
    assert Pow2(20) == 0x10_0000;
    assert Pow2(24) == 0x100_0000;
    assert Pow2(28) == 0x1000_0000;
  }

  predicate Bit(x: nat, i: nat) {
    if i == 0 then x % 2 == 1 else Bit(x / 2, i - 1)
  }

  function And(x: nat, y: nat): nat {
    if x == 0 || y == 0 then 0
    else 2 * And(x / 2, y / 2) + if x % 2 == 1 && y % 2 == 1 then 1 else 0
  }

  function Or(x: nat, y: nat): nat
    decreases x + y
  {
    if x == 0 then y else if y == 0 then x
    else 2 * Or(x / 2, y / 2) + if x % 2 == 1 || y % 2 == 1 then 1 else 0
  }

  function Xor(x: nat, y: nat): nat
    decreases x + y
  {
    if x == 0 then y else if y == 0 then x
    else 2 * Xor(x / 2, y / 2) + if x % 2 != y % 2 then 1 else 0
  }

  lemma {:induction false} ZeroBits(i: nat)
    ensures !Bit(0, i)
    decreases i
  {
    if i == 0 {
    } else {
      ZeroBits(i - 1);
    }
  }

  lemma {:induction false} AndBit(x: nat, y: nat, i: nat)
    ensures Bit(And(x, y), i) == (Bit(x, i) && Bit(y, i))
    decreases i
  {
    ZeroBits(i);
    if i == 0 || x == 0 || y == 0 {
    } else {
      AndBit(x / 2, y / 2, i - 1);
    }
  }

  lemma {:induction false} OrBit(x: nat, y: nat, i: nat)
    ensures Bit(Or(x, y), i) == (Bit(x, i) || Bit(y, i))
    decreases i
  {
    ZeroBits(i);
    if i == 0 || x == 0 || y == 0 {
    } else {
      OrBit(x / 2, y / 2, i - 1);
    }
  }

  lemma {:induction false} AndBound(x: nat, y: nat)
    ensures And(x, y) <= x && And(x, y) <= y
  {
    if x == 0 || y == 0 {
    } else {
      AndBound(x / 2, y / 2);
    }
  }

  lemma {:induction false} OrBound(x: nat, y: nat, n: nat)
    requires x < Pow2(n) && y < Pow2(n)
    ensures Or(x, y) < Pow2(n)
  {
    if x == 0 || y == 0 {
    } else {
      OrBound(x / 2, y / 2, n - 1);
    }
  }

  lemma {:induction false} XorBound(x: nat, y: nat, n: nat)
    requires x < Pow2(n) && y < Pow2(n)
    ensures Xor(x, y) < Pow2(n)
  {
    if x == 0 || y == 0 {
    } else {
      XorBound(x / 2, y / 2, n - 1);
    }
  }

  lemma {:induction false} OneHot(j: nat, i: nat)
    ensures Bit(Pow2(j), i) == (i == j)
    decreases i
  {
    if j == 0 {
      if i > 0 { ZeroBits(i - 1); }
    } else if i > 0 {
      OneHot(j - 1, i - 1);
    }
  }

  lemma {:induction false} ComplementBit(n: nat, x: nat, i: nat)
    requires x < Pow2(n)
    ensures Bit(Pow2(n) - 1 - x, i) == (i < n && !Bit(x, i))
    decreases n
  {
    if n == 0 {
      ZeroBits(i);
    } else if i > 0 {
      assert (Pow2(n) - 1 - x) / 2 == Pow2(n - 1) - 1 - x / 2;
      ComplementBit(n - 1, x / 2, i - 1);
    }
  }

  lemma {:induction false} Pow2Monotone(i: nat, j: nat)
    requires i < j
    ensures Pow2(i) < Pow2(j)
    decreases j
  {
    if i == j - 1 {
    } else {
      Pow2Monotone(i, j - 1);
    }
  }

  /** Words of n bits that agree on every bit are equal. */
  lemma {:induction false} SameBits(x: nat, y: nat, n: nat)
    requires x < Pow2(n) && y < Pow2(n)
    requires forall i: nat :: i < n ==> Bit(x, i) == Bit(y, i)
    ensures x == y
    decreases n
  {
    if n == 0 {
    } else {
      forall i: nat | i < n - 1
        ensures Bit(x / 2, i) == Bit(y / 2, i)
      {
        assert Bit(x, i + 1) == Bit(y, i + 1);
      }
      SameBits(x / 2, y / 2, n - 1);
      assert Bit(x, 0) == Bit(y, 0);
    }
  }

  lemma MaskBounds(x: nat, j: nat)
    requires x < 256 && j < 8
    ensures Pow2(j) < 256 && Or(x, Pow2(j)) < 256 && And(x, 255 - Pow2(j)) < 256
  {
    PowersOfTwo();
    Pow2Monotone(j, 8);
    OrBound(x, Pow2(j), 8);
    AndBound(x, 255 - Pow2(j));
  }

  /** Setting bit j of a byte by OR with its mask, and clearing it by AND with the mask's complement. */
  lemma SetClearBit(x: nat, j: nat, i: nat)
    requires x < 256 && j < 8 && Pow2(j) < 256
    ensures Bit(Or(x, Pow2(j)), i) == (i == j || Bit(x, i))
    ensures Bit(And(x, 255 - Pow2(j)), i) == (i != j && Bit(x, i))
  {
    PowersOfTwo();
    OneHot(j, i);
    OrBit(x, Pow2(j), i);
    AndBit(x, 255 - Pow2(j), i);
    ComplementBit(8, Pow2(j), i);
    if i >= 8 { HighBitsClear(x, 8, i); }
  }

  /** AND with a mask is non-zero exactly when that bit is set. */
  lemma {:induction false} TestMask(x: nat, j: nat)
    ensures And(x, Pow2(j)) > 0 <==> Bit(x, j)
    decreases j
  {
    if x == 0 {
      ZeroBits(j);
    } else if j == 0 {
      assert And(x / 2, 0) == 0;
    } else {
      TestMask(x / 2, j - 1);
    }
  }

  lemma {:induction false} AndMask(x: nat, j: nat)
    ensures And(x, Pow2(j)) == if Bit(x, j) then Pow2(j) else 0
    decreases j
  {
    if x == 0 {
      ZeroBits(j);
    } else if j == 0 {
      assert And(x / 2, 0) == 0;
    } else {
      AndMask(x / 2, j - 1);
    }
  }

  lemma AndEven(x: nat, y: nat)
    ensures And(x, 2 * y) == 2 * And(x / 2, y)
  {
    if x > 0 && y > 0 {
      assert 2 * y / 2 == y && 2 * y % 2 == 0;
    }
  }

  lemma AndLow(x: nat, y: nat)
    ensures And(x, 2 * y + 1) == 2 * And(x / 2, y) + x % 2
  {
    assert (2 * y + 1) / 2 == y && (2 * y + 1) % 2 == 1;
  }

  /** Shifting right by k places. */
  function ShiftRight(x: nat, k: nat): nat {
    if k == 0 then x else ShiftRight(x / 2, k - 1)
  }

  lemma AndOne(x: nat)
    ensures And(x, 1) == x % 2
  {
    assert And(x / 2, 0) == 0;
  }

  /** A bit is read by shifting it down to the lowest place. */
  lemma {:induction false} ShiftedBit(x: nat, k: nat)
    ensures And(ShiftRight(x, k), 1) == 1 <==> Bit(x, k)
    decreases k
  {
    if k == 0 { AndOne(x); } else { ShiftedBit(x / 2, k - 1); }
  }

  lemma {:induction false} HighBitsClear(x: nat, n: nat, i: nat)
    requires x < Pow2(n) && n <= i
    ensures !Bit(x, i)
    decreases i
  {
    if n == 0 {
      ZeroBits(i);
    } else {
      HighBitsClear(x / 2, n - 1, i - 1);
    }
  }

  /** The highest bit of a number of n + 1 bits. */
  lemma {:induction false} HighestBit(x: nat, n: nat)
    requires Pow2(n) <= x < Pow2(n + 1)
    ensures Bit(x, n)
    decreases n
  {
    if n == 0 {
    } else {
      HighestBit(x / 2, n - 1);
    }
  }

  /** Programming an all-ones byte stores the byte. */
  lemma AndOnes(x: byte)
    ensures And(255, x) == x
  {
    PowersOfTwo();
    AndBound(255, x);
    forall i: nat | i < 8
      ensures Bit(And(255, x), i) == Bit(x, i)
    {
      AndBit(255, x, i);
      ZeroBits(i);
      ComplementBit(8, 0, i);
    }
    SameBits(And(255, x), x, 8);
  }

  // ---------- Exclusive or ----------

  lemma {:induction false} XorBit(x: nat, y: nat, i: nat)
    ensures Bit(Xor(x, y), i) == (Bit(x, i) != Bit(y, i))
    decreases i
  {
    ZeroBits(i);
    if i == 0 || x == 0 || y == 0 {
    } else {
      XorBit(x / 2, y / 2, i - 1);
    }
  }

  lemma {:induction false} XorHalf(x: nat, y: nat)
    ensures Xor(x, y) / 2 == Xor(x / 2, y / 2)
    ensures Xor(x, y) % 2 == 1 <==> x % 2 != y % 2
  {
  }

  lemma {:induction false} XorSelf(x: nat, y: nat)
    ensures Xor(x, y) == 0 <==> x == y
    decreases x + y
  {
    if x == 0 || y == 0 {
    } else {
      XorSelf(x / 2, y / 2);
    }
  }

  // ---------- Strings of bytes ----------

  lemma Regroup(a: seq<byte>, b: seq<byte>, c: seq<byte>)
    ensures a + b + c == a + (b + c)
  {
  }
}
