/**
 The bitwise operators the radiotap code applies to flag words (`&`, `|`,
 `~` within a fixed width), defined on unbounded naturals one binary digit
 at a time, with lemmas that describe each result bit by bit.
 */
module Bits {

  /** 2 raised to the k-th power. */
  function Pow2(k: nat): (r: nat)
    ensures r > 0
  {
    if k == 0 then 1 else 2 * Pow2(k - 1)
  }

  lemma Pow2Widths()
    ensures Pow2(4) == 16 && Pow2(8) == 256
    ensures Pow2(16) == 0x1_0000 && Pow2(32) == 0x1_0000_0000
  {
    assert Pow2(4) == 16;
    assert Pow2(8) == 256;
    assert Pow2(12) == 0x1000;
    assert Pow2(16) == 0x1_0000;
    assert Pow2(20) == 0x10_0000;
    assert Pow2(24) == 0x100_0000;
    assert Pow2(28) == 0x1000_0000;
  }

  /** Bit k of x (bit 0 is the least significant). */
  predicate Bit(x: nat, k: nat)
  {
    if k == 0 then x % 2 == 1 else Bit(x / 2, k - 1)
  }

  /** `x & y`. */
  function And(x: nat, y: nat): nat
  {
    if x == 0 || y == 0 then 0
    else 2 * And(x / 2, y / 2) + (if x % 2 == 1 && y % 2 == 1 then 1 else 0)
  }

  /** `x | y`. */
  function Or(x: nat, y: nat): nat
    decreases x + y
  {
    if x == 0 then y
    else if y == 0 then x
    else 2 * Or(x / 2, y / 2) + (if x % 2 == 1 || y % 2 == 1 then 1 else 0)
  }

  /** `~x` for an unsigned integer of `width` bits. */
  function Not(x: nat, width: nat): nat
    requires x < Pow2(width)
  {
    Pow2(width) - 1 - x
  }

  lemma {:induction false} AndBit(x: nat, y: nat, k: nat)
    ensures Bit(And(x, y), k) <==> Bit(x, k) && Bit(y, k)
  {
    if x == 0 || y == 0 {
      ZeroBit(k);
    } else if k > 0 {
      AndBit(x / 2, y / 2, k - 1);
    }
  }

  lemma {:induction false} OrBit(x: nat, y: nat, k: nat)
    ensures Bit(Or(x, y), k) <==> Bit(x, k) || Bit(y, k)
    decreases x + y
  {
    if x == 0 {
      ZeroBit(k);
    } else if y == 0 {
      ZeroBit(k);
    } else if k > 0 {
      OrBit(x / 2, y / 2, k - 1);
    }
  }

  lemma {:induction false} NotBit(x: nat, width: nat, k: nat)
    requires x < Pow2(width)
    ensures Bit(Not(x, width), k) <==> k < width && !Bit(x, k)
  {
    if width == 0 {
      ZeroBit(k);
    } else if k == 0 {
    } else {
      assert Not(x, width) / 2 == Not(x / 2, width - 1);
      NotBit(x / 2, width - 1, k - 1);
    }
  }

  lemma {:induction false} ZeroBit(k: nat)
    ensures !Bit(0, k)
  {
    if k > 0 {
      ZeroBit(k - 1);
    }
  }

  /** The only bit of 2^j is bit j. */
  lemma {:induction false} PowBit(j: nat, k: nat)
    ensures Bit(Pow2(j), k) <==> j == k
  {
    if j == 0 {
      if k > 0 {
        ZeroBit(k - 1);
      }
    } else if k == 0 {
    } else {
      PowBit(j - 1, k - 1);
    }
  }

  /** Naturals below 2^width have no bit at or above width. */
  lemma {:induction false} HighBit(x: nat, width: nat, k: nat)
    requires x < Pow2(width) && width <= k
    ensures !Bit(x, k)
  {
    if width == 0 {
      ZeroBit(k);
    } else {
      HighBit(x / 2, width - 1, k - 1);
    }
  }

  /** `&` never exceeds its first operand, so it keeps the operand's width. */
  lemma {:induction false} AndBound(x: nat, y: nat)
    ensures And(x, y) <= x
  {
    if x != 0 && y != 0 {
      AndBound(x / 2, y / 2);
    }
  }

  /** `|` of two values of some width has that width. */
  lemma {:induction false} OrBound(x: nat, y: nat, width: nat)
    requires x < Pow2(width) && y < Pow2(width)
    ensures Or(x, y) < Pow2(width)
    decreases x + y
  {
    if x != 0 && y != 0 {
      OrBound(x / 2, y / 2, width - 1);
    }
  }
}
