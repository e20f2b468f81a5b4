// Unsigned words as natural numbers, with the bitwise operators of C written
// out by recursion on the binary digits.

module Bits {
  import opened Arith

  // Powers of two, halves and parities are spelled with additions only: the
  // proofs stay linear.
  function Exp2(k: nat): (p: nat)
    ensures p >= 1
  {
    if k == 0 then 1 else Exp2(k - 1) + Exp2(k - 1)
  }

  // x >> 1
  function Half(x: nat): (h: nat)
    ensures h + h <= x <= h + h + 1
  {
    if x <= 1 then 0 else Half(x - 2) + 1
  }

  predicate Odd(x: nat) {
    x != Half(x) + Half(x)
  }

  function Digit(b: bool): nat {
    if b then 1 else 0
  }

  // x | y
  function Or(x: nat, y: nat): nat
    decreases x
  {
    if x == 0 then y
    else if y == 0 then x
    else Or(Half(x), Half(y)) + Or(Half(x), Half(y)) + Digit(Odd(x) || Odd(y))
  }

  // x & y
  function And(x: nat, y: nat): nat
    decreases x
  {
    if x == 0 || y == 0 then 0
    else And(Half(x), Half(y)) + And(Half(x), Half(y)) + Digit(Odd(x) && Odd(y))
  }

  predicate Bit(x: nat, i: nat)
    decreases i
  {
    if i == 0 then Odd(x) else Bit(Half(x), i - 1)
  }

  // Position of the highest set bit.
  function Top(a: nat): (k: nat)
    ensures a >= 1 ==> Exp2(k) <= a < Exp2(k) + Exp2(k)
  {
    if a <= 1 then 0 else 1 + Top(Half(a))
  }

  // Least k with a <= 2^k.
  function CeilLog(a: nat): (k: nat)
    requires a >= 1
    ensures a <= Exp2(k) < a + a
  {
    if a == Exp2(Top(a)) then Top(a) else Top(a) + 1
  }

  lemma {:induction false} HalfDivision(x: nat)
    ensures Half(x) == x / 2 && (Odd(x) <==> x % 2 == 1)
    decreases x
  {
    if x > 1 {
      HalfDivision(x - 2);
    }
  }

  lemma {:induction false} HalfOf(h: nat, b: bool)
    ensures Half(h + h + Digit(b)) == h && (Odd(h + h + Digit(b)) <==> b)
  {
  }

  // ---------- Bits determine the word ----------

  lemma {:induction false} ZeroBit(i: nat)
    ensures !Bit(0, i)
  {
    if i > 0 {
      ZeroBit(i - 1);
    }
  }

  lemma {:induction false} OrBit(x: nat, y: nat, i: nat)
    ensures Bit(Or(x, y), i) == (Bit(x, i) || Bit(y, i))
    decreases i
  {
    ZeroBit(i);
    if x != 0 && y != 0 {
      HalfOf(Or(Half(x), Half(y)), Odd(x) || Odd(y));
      if i > 0 {
        OrBit(Half(x), Half(y), i - 1);
      }
    }
  }

  lemma {:induction false} AndBit(x: nat, y: nat, i: nat)
    ensures Bit(And(x, y), i) == (Bit(x, i) && Bit(y, i))
    decreases i
  {
    ZeroBit(i);
    if x != 0 && y != 0 {
      HalfOf(And(Half(x), Half(y)), Odd(x) && Odd(y));
      if i > 0 {
        AndBit(Half(x), Half(y), i - 1);
      }
    }
  }

  // y is x shifted right by w places.
  ghost predicate Shifted(y: nat, x: nat, w: nat) {
    forall i: nat :: Bit(y, i) == Bit(x, i + w)
  }

  lemma {:induction false} ShiftTwice(z: nat, y: nat, x: nat, v: nat, w: nat)
    requires Shifted(z, y, v) && Shifted(y, x, w)
    ensures Shifted(z, x, w + v)
  {
    forall i: nat ensures Bit(z, i) == Bit(x, i + (w + v)) {
      assert Bit(z, i) == Bit(y, i + v);
    }
  }

  // The shifts by 1, 2, 4, 8 and 16 are divisions.
  lemma {:induction false} Shift1(x: nat)
    ensures Shifted(x / 2, x, 1)
  {
    HalfDivision(x);
    forall i: nat ensures Bit(Half(x), i) == Bit(x, i + 1) {
    }
  }

  lemma {:induction false} Shift2(x: nat)
    ensures Shifted(x / 4, x, 2)
  {
    Shift1(x);
    Shift1(x / 2);
    ShiftTwice(x / 2 / 2, x / 2, x, 1, 1);
    assert x / 2 / 2 == x / 4;
  }

  lemma {:induction false} Shift4(x: nat)
    ensures Shifted(x / 16, x, 4)
  {
    Shift2(x);
    Shift2(x / 4);
    ShiftTwice(x / 4 / 4, x / 4, x, 2, 2);
    assert x / 4 / 4 == x / 16;
  }

  lemma {:induction false} Shift8(x: nat)
    ensures Shifted(x / 256, x, 8)
  {
    Shift4(x);
    Shift4(x / 16);
    ShiftTwice(x / 16 / 16, x / 16, x, 4, 4);
    assert x / 16 / 16 == x / 256;
  }

  lemma {:induction false} Shift16(x: nat)
    ensures Shifted(x / 65536, x, 16)
  {
    Shift8(x);
    Shift8(x / 256);
    ShiftTwice(x / 256 / 256, x / 256, x, 8, 8);
    assert x / 256 / 256 == x / 65536;
  }

  lemma {:induction false} SameBits(x: nat, y: nat)
    requires forall i: nat :: Bit(x, i) == Bit(y, i)
    ensures x == y
    decreases x + y
  {
    if x != 0 || y != 0 {
      assert Bit(x, 0) == Bit(y, 0);
      forall i: nat ensures Bit(Half(x), i) == Bit(Half(y), i) {
        assert Bit(x, i + 1) == Bit(y, i + 1);
      }
      SameBits(Half(x), Half(y));
    }
  }

  // The set bits of a - 2^Top(a) are those of a without the top one.
  lemma {:induction false} TopBit(a: nat, i: nat)
    requires a >= 1
    ensures Bit(a, Top(a))
    ensures i > Top(a) ==> !Bit(a, i)
    ensures Bit(a - Exp2(Top(a)), i) == (Bit(a, i) && i != Top(a))
    decreases a
  {
    if a == 1 {
      ZeroBit(i);
      if i > 0 { ZeroBit(i - 1); }
    } else {
      var h := Half(a);
      HalfOf(h - Exp2(Top(h)), Odd(a));
      assert a - Exp2(Top(a)) == (h - Exp2(Top(h))) + (h - Exp2(Top(h))) + Digit(Odd(a));
      TopBit(h, if i > 0 then i - 1 else 0);
    }
  }

  // ---------- Powers of two ----------

  lemma {:induction false} Exp2Sum(j: nat, k: nat)
    ensures Exp2(j + k) == Exp2(j) * Exp2(k)
    decreases j
  {
    if j > 0 {
      Exp2Sum(j - 1, k);
      assert (Exp2(j - 1) + Exp2(j - 1)) * Exp2(k) == Exp2(j - 1) * Exp2(k) + Exp2(j - 1) * Exp2(k);
    }
  }

  lemma {:induction false} Exp2Grows(j: nat, k: nat)
    requires j < k
    ensures Exp2(j) + Exp2(j) <= Exp2(k)
    decreases k
  {
    if j < k - 1 {
      Exp2Grows(j, k - 1);
    }
  }

  lemma {:induction false} Exp2Injective(j: nat, k: nat)
    requires Exp2(j) < Exp2(k) + Exp2(k) && Exp2(k) < Exp2(j) + Exp2(j)
    ensures j == k
  {
    if j < k {
      Exp2Grows(j, k);
    } else if k < j {
      Exp2Grows(k, j);
    }
  }

  lemma {:induction false} TopUnique(a: nat, k: nat)
    requires Exp2(k) <= a < Exp2(k) + Exp2(k)
    ensures Top(a) == k
  {
    Exp2Injective(Top(a), k);
  }

  lemma {:induction false} Exp2Times(j: nat, k: nat)
    ensures Exp2(j + k) == Times(Exp2(j), Exp2(k))
    decreases j
  {
    if j > 0 {
      Exp2Times(j - 1, k);
      TimesSplit(Exp2(j - 1), Exp2(j - 1), Exp2(k));
    }
  }

  lemma {:induction false} Exp2Multiple(j: nat, k: nat)
    requires j <= k
    ensures Exp2(k) % Exp2(j) == 0 && Exp2(k) / Exp2(j) == Exp2(k - j)
    ensures Exp2(k) == Exp2(j) * Exp2(k - j)
  {
    Exp2Sum(j, k - j);
    ModOfMultiple(Exp2(j), Exp2(k - j));
  }

  lemma {:induction false} OrBelow(x: nat, y: nat, k: nat)
    requires x < Exp2(k) && y < Exp2(k)
    ensures Or(x, y) < Exp2(k)
    decreases k
  {
    if x != 0 && y != 0 {
      OrBelow(Half(x), Half(y), k - 1);
    }
  }

  lemma {:induction false} OrAtLeast(x: nat, y: nat)
    ensures x <= Or(x, y) && y <= Or(x, y) <= x + y
    decreases x
  {
    if x != 0 && y != 0 {
      OrAtLeast(Half(x), Half(y));
    }
  }

  // Why a descent through bitwise-or records never gets stuck.
  lemma {:induction false} OrReaches(x: nat, y: nat, k: nat)
    ensures Exp2(k) <= Or(x, y) <==> Exp2(k) <= x || Exp2(k) <= y
  {
    OrAtLeast(x, y);
    if x < Exp2(k) && y < Exp2(k) {
      OrBelow(x, y, k);
    }
  }

  // Or-ing a power of two with something smaller adds them.
  lemma {:induction false} OrDisjoint(k: nat, x: nat)
    requires x < Exp2(k)
    ensures Or(Exp2(k), x) == Exp2(k) + x
    decreases k
  {
    if k > 0 && x != 0 {
      OrDisjoint(k - 1, Half(x));
    }
  }

  // ---------- Testing one bit with a mask ----------

  lemma {:induction false} MaskBit(k: nat, x: nat)
    ensures And(Exp2(k), x) != 0 <==> Bit(x, k)
    decreases k
  {
    if x == 0 {
      ZeroBit(k);
    } else if k > 0 {
      MaskBit(k - 1, Half(x));
    } else {
      assert And(0, Half(x)) == 0;
    }
  }

  lemma {:induction false} PowerBit(k: nat, j: nat)
    ensures Bit(Exp2(k), j) <==> j == k
    decreases k
  {
    if k == 0 {
      if j > 0 { ZeroBit(j - 1); }
    } else if j > 0 {
      PowerBit(k - 1, j - 1);
    }
  }

  lemma {:induction false} BitAtMost(x: nat, k: nat)
    requires Bit(x, k)
    ensures Exp2(k) <= x
    decreases k
  {
    if k > 0 {
      BitAtMost(Half(x), k - 1);
    }
  }

  lemma {:induction false} AndAtMost(x: nat, y: nat)
    ensures And(x, y) <= x
    decreases x
  {
    if x != 0 && y != 0 {
      AndAtMost(Half(x), Half(y));
    }
  }
}
