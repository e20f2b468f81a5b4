// The bit-smearing macros and the sizing arithmetic of lab2/kern/mm/buddy.c.

module BuddyGeometry {
  import opened Arith
  import opened Bits

  // The shifts by 1, 2, 4, 8 and 16 written as divisions.
  function AllBitToOne(a: nat): nat {
    var b := Or(a, a / 2);
    var c := Or(b, b / 4);
    var d := Or(c, c / 16);
    var e := Or(d, d / 256);
    Or(e, e / 65536)
  }

  function PowerRemainder(a: nat): (r: nat)
    ensures r <= a
  {
    AndAtMost(a, Half(AllBitToOne(a)));
    And(a, Half(AllBitToOne(a)))
  }

  const SIZE_RANGE: nat := 0x1_0000_0000_0000_0000   // words of type size_t
  const SIZE_HALF: nat := 0x8000_0000_0000_0000

  // x << 1 on a word
  function ShiftLeft(x: nat): (r: nat)
    ensures x < SIZE_HALF ==> r == x + x
    ensures SIZE_HALF <= x < SIZE_RANGE ==> r == x + x - SIZE_RANGE
  {
    (x + x) % SIZE_RANGE
  }

  function PowerRoundUp(a: nat): nat {
    if PowerRemainder(a) != 0 then ShiftLeft(a - PowerRemainder(a)) else a
  }

  function PowerRoundDown(a: nat): nat {
    if PowerRemainder(a) != 0 then a - PowerRemainder(a) else a
  }

  // ---------- What smearing computes ----------

  // Some bit of a is set among positions i .. i+w-1.
  ghost predicate Window(a: nat, i: nat, w: nat) {
    exists j: nat :: i <= j < i + w && Bit(a, j)
  }

  ghost predicate Smeared(x: nat, a: nat, w: nat) {
    forall i: nat :: Bit(x, i) <==> Window(a, i, w)
  }

  lemma {:induction false} Exp2Small()
    ensures Exp2(8) == 256 && Exp2(9) == 512
  {
    assert Exp2(3) == 8;
    assert Exp2(6) == 64;
  }

  lemma {:induction false} Exp2Large()
    ensures Exp2(32) == 0x1_0000_0000 && Exp2(33) == 0x2_0000_0000
  {
    Exp2Small();
    Exp2Sum(8, 8);
    Exp2Sum(16, 16);
  }

  lemma {:induction false} SmearStep(x: nat, y: nat, a: nat, w: nat)
    requires Smeared(x, a, w) && Shifted(y, x, w)
    ensures Smeared(Or(x, y), a, w + w)
  {
    forall i: nat ensures Bit(Or(x, y), i) <==> Window(a, i, w + w) {
      OrBit(x, y, i);
      assert Bit(Or(x, y), i) <==> Window(a, i, w) || Window(a, i + w, w);
    }
  }

  lemma {:induction false} SmearAll(a: nat)
    ensures Smeared(AllBitToOne(a), a, 32)
  {
    assert Smeared(a, a, 1);
    Shift1(a);
    SmearStep(a, a / 2, a, 1);
    var b := Or(a, a / 2);
    Shift2(b);
    SmearStep(b, b / 4, a, 2);
    var c := Or(b, b / 4);
    Shift4(c);
    SmearStep(c, c / 16, a, 4);
    var d := Or(c, c / 16);
    Shift8(d);
    SmearStep(d, d / 256, a, 8);
    var e := Or(d, d / 256);
    Shift16(e);
    SmearStep(e, e / 65536, a, 16);
  }

  // No two neighbouring set bits of a are more than 32 places apart.
  ghost predicate NoWideGap(a: nat) {
    forall i: nat :: i < Top(a) && Bit(a, i) ==> Window(a, i + 1, 32)
  }

  lemma {:induction false} RemainderBit(a: nat, i: nat)
    ensures Bit(PowerRemainder(a), i) <==> Bit(a, i) && Window(a, i + 1, 32)
  {
    SmearAll(a);
    AndBit(a, Half(AllBitToOne(a)), i);
    assert Bit(AllBitToOne(a), i + 1) == Bit(Half(AllBitToOne(a)), i);
  }

  // The macro strips exactly the top bit if and only if a has no gap of more
  // than 32 places between set bits.
  lemma {:induction false} RemainderExact(a: nat)
    requires a >= 1
    ensures PowerRemainder(a) == a - Exp2(Top(a)) <==> NoWideGap(a)
  {
    if NoWideGap(a) {
      forall i: nat ensures Bit(PowerRemainder(a), i) == Bit(a - Exp2(Top(a)), i) {
        RemainderBit(a, i);
        TopBit(a, i);
        forall j: nat | j > Top(a) ensures !Bit(a, j) { TopBit(a, j); }
      }
      SameBits(PowerRemainder(a), a - Exp2(Top(a)));
    }
    if PowerRemainder(a) == a - Exp2(Top(a)) {
      forall i: nat | i < Top(a) && Bit(a, i) ensures Window(a, i + 1, 32) {
        TopBit(a, i);
        RemainderBit(a, i);
      }
    }
  }

  const MACRO_RANGE: nat := 0x2_0000_0000

  lemma {:induction false} SmallHasNoWideGap(a: nat)
    requires 1 <= a < MACRO_RANGE
    ensures NoWideGap(a)
  {
    Exp2Large();
    if Top(a) > 32 { Exp2Grows(32, Top(a)); }
    TopBit(a, 0);
    forall i: nat | i < Top(a) && Bit(a, i) ensures Window(a, i + 1, 32) {
      assert i + 1 <= Top(a) < i + 33;
    }
  }

  // Below 2^33 the macros give the greatest power of two at most a and the
  // least power of two at least a.
  lemma {:induction false} RoundingCorrect(a: nat)
    requires 1 <= a < MACRO_RANGE
    ensures PowerRemainder(a) == a - Exp2(Top(a))
    ensures PowerRoundDown(a) == Exp2(Top(a))
    ensures PowerRoundUp(a) == Exp2(CeilLog(a))
  {
    SmallHasNoWideGap(a);
    RemainderExact(a);
  }

  // The first word for which rounding down does not give a power of two.
  lemma {:induction false} RoundingFailsAtGap()
    ensures forall k: nat :: PowerRoundDown(MACRO_RANGE + 1) != Exp2(k)
  {
    var a := MACRO_RANGE + 1;
    forall i: nat ensures !Bit(PowerRemainder(a), i) {
      RemainderBit(a, i);
      forall j: nat | Bit(a, j) ensures j == 0 || j == 33 { OnlyEnds(j); }
    }
    forall i: nat ensures Bit(PowerRemainder(a), i) == Bit(0, i) { ZeroBit(i); }
    SameBits(PowerRemainder(a), 0);
    forall k: nat ensures a != Exp2(k) {
      OnlyEnds(0);
      OnlyEnds(33);
      PowerBit(k, 0);
      PowerBit(k, 33);
    }
  }

  lemma {:induction false} OnlyEnds(j: nat)
    ensures Bit(MACRO_RANGE + 1, j) <==> j == 0 || j == 33
  {
    Exp2Large();
    HalfOf(Exp2(32), true);
    if j > 0 { PowerBit(32, j - 1); }
  }

  // The remainder never reaches the top bit.
  lemma {:induction false} RemainderBelowTop(a: nat)
    requires a >= 1
    ensures PowerRemainder(a) <= a - Exp2(Top(a))
  {
    var s := Half(AllBitToOne(a));
    forall i: nat ensures Bit(PowerRemainder(a), i) == Bit(And(a - Exp2(Top(a)), s), i) {
      RemainderBit(a, i);
      AndBit(a - Exp2(Top(a)), s, i);
      AndBit(a, s, i);
      TopBit(a, i);
      forall j: nat | j > Top(a) ensures !Bit(a, j) { TopBit(a, j); }
    }
    SameBits(PowerRemainder(a), And(a - Exp2(Top(a)), s));
    AndAtMost(a - Exp2(Top(a)), s);
  }

  lemma {:induction false} Exp2Words()
    ensures Exp2(63) == SIZE_HALF && Exp2(64) == SIZE_RANGE
  {
    Exp2Large();
    Exp2Sum(32, 32);
  }

  // Rounding up goes below the request exactly when the shift drops the top
  // bit: for words above 2^63 with a remainder.
  lemma {:induction false} RoundUpBelow(a: nat)
    requires 1 <= a < SIZE_RANGE
    ensures PowerRoundUp(a) < a <==> a > SIZE_HALF && PowerRemainder(a) != 0
  {
    hide PowerRemainder, Exp2, Top, ShiftLeft;
    RemainderBelowTop(a);
    if a >= SIZE_HALF {
      Exp2Words();
      TopUnique(a, 63);
    }
  }

  // Such a word without a wide gap rounds up to 0 ...
  lemma {:induction false} RoundUpWraps(a: nat)
    requires SIZE_HALF < a < SIZE_RANGE && NoWideGap(a)
    ensures PowerRoundUp(a) == 0
  {
    hide PowerRemainder, Exp2, Top, ShiftLeft;
    Exp2Words();
    TopUnique(a, 63);
    RemainderExact(a);
  }

  // ... and the greatest word is one.
  lemma {:induction false} RoundUpFailsAtGreatest()
    ensures PowerRoundUp(0xffff_ffff_ffff_ffff) == 0
  {
    var a := SIZE_RANGE - 1;
    Exp2Words();
    TopUnique(a, 63);
    forall i: nat | i < Top(a) && Bit(a, i) ensures Window(a, i + 1, 32) {
      AllOnes(64, i + 1);
    }
    RoundUpWraps(a);
  }

  lemma {:induction false} AllOnes(k: nat, i: nat)
    ensures Bit(Exp2(k) - 1, i) <==> i < k
    decreases k
  {
    if k == 0 {
      ZeroBit(i);
    } else {
      HalfOf(Exp2(k - 1) - 1, true);
      if i > 0 {
        AllOnes(k - 1, i - 1);
      }
    }
  }

  // ---------- Node geometry ----------

  function NodeLength(full: nat, a: nat): nat
    requires PowerRoundDown(a) != 0
  {
    Quotient(full, PowerRoundDown(a))
  }

  function NodeBeginning(full: nat, a: nat): nat
    requires PowerRoundDown(a) != 0
  {
    Times(PowerRemainder(a), NodeLength(full, a))
  }

  function NodeEnding(full: nat, a: nat): nat
    requires PowerRoundDown(a) != 0
  {
    Times(PowerRemainder(a) + 1, NodeLength(full, a))
  }

  function BuddyBlock(full: nat, a: nat, b: nat): nat
    requires a < b
  {
    Quotient(full, b - a) + Quotient(a, b - a)
  }

  // LEFT_CHILD, RIGHT_CHILD, PARENT
  function LeftChild(a: nat): nat { a + a }

  function RightChild(a: nat): nat { a + a + 1 }

  function Parent(a: nat): nat { Half(a) }

  // Node number 2^d + k of level d, covering 2^h pages from begin.
  ghost predicate AtNode(full: nat, a: nat, begin: nat, h: nat, d: nat, k: nat) {
    full == Exp2(d + h) && k < Exp2(d) && a == Exp2(d) + k && begin == Times(k, Exp2(h))
  }

  lemma {:induction false} NodeGeometry(full: nat, a: nat, begin: nat, h: nat, d: nat, k: nat)
    requires AtNode(full, a, begin, h, d, k) && a < MACRO_RANGE
    ensures PowerRoundDown(a) == Exp2(d)
    ensures NodeLength(full, a) == Exp2(h)
    ensures NodeBeginning(full, a) == begin
    ensures NodeEnding(full, a) == begin + Exp2(h)
  {
    RoundingCorrect(a);
    TopUnique(a, d);
    LevelLength(full, h, d);
  }

  lemma {:induction false} LevelLength(full: nat, h: nat, d: nat)
    requires full == Exp2(d + h)
    ensures Quotient(full, Exp2(d)) == Exp2(h)
  {
    Exp2Times(h, d);
    QuotientOfTimes(Exp2(h), Exp2(d));
  }

  lemma {:induction false} NodeBounds(full: nat, a: nat, begin: nat, h: nat, d: nat, k: nat)
    requires AtNode(full, a, begin, h, d, k)
    ensures begin + Exp2(h) <= full && 1 <= a < full + full
  {
    Exp2Times(d, h);
    TimesBelow(k, Exp2(d), Exp2(h));
    if h > 0 {
      Exp2Grows(d, d + h);
    }
  }

  lemma {:induction false} NodeBlock(full: nat, a: nat, begin: nat, h: nat, d: nat, k: nat, end: nat)
    requires AtNode(full, a, begin, h, d, k) && end == begin + Exp2(h)
    ensures BuddyBlock(full, begin, end) == a
  {
    var len := end - begin;
    Exp2Times(d, h);
    QuotientOfTimes(Exp2(d), len);
    QuotientOfTimes(k, len);
  }

  lemma {:induction false} Children(full: nat, a: nat, begin: nat, h: nat, d: nat, k: nat)
    requires AtNode(full, a, begin, h, d, k) && h > 0
    ensures AtNode(full, LeftChild(a), begin, h - 1, d + 1, k + k)
    ensures AtNode(full, RightChild(a), begin + Exp2(h - 1), h - 1, d + 1, k + k + 1)
  {
    TimesDouble(k, Exp2(h - 1));
  }

  // Every index of the tree is a node, and BUDDY_BLOCK finds it from its range.
  lemma {:induction false} NodeOf(full: nat, height: nat, a: nat)
      returns (begin: nat, h: nat, d: nat, k: nat)
    requires full == Exp2(height) && 1 <= a < full + full
    ensures AtNode(full, a, begin, h, d, k)
    decreases a
  {
    if a == 1 {
      return 0, height, 0, 0;
    }
    begin, h, d, k := NodeOf(full, height, Parent(a));
    assert h > 0;
    Children(full, Parent(a), begin, h, d, k);
    if Odd(a) {
      return begin + Exp2(h - 1), h - 1, d + 1, k + k + 1;
    } else {
      return begin, h - 1, d + 1, k + k;
    }
  }

  lemma {:induction false} BlockInvertsRange(full: nat, height: nat, a: nat)
    requires full == Exp2(height) && 1 <= a < full + full <= MACRO_RANGE
    ensures PowerRoundDown(a) != 0
    ensures NodeBeginning(full, a) < NodeEnding(full, a) <= full
    ensures BuddyBlock(full, NodeBeginning(full, a), NodeEnding(full, a)) == a
  {
    var begin, h, d, k := NodeOf(full, height, a);
    NodeGeometry(full, a, begin, h, d, k);
    NodeBounds(full, a, begin, h, d, k);
    NodeBlock(full, a, begin, h, d, k, begin + Exp2(h));
  }

  // ---------- Sizing of the record area ----------

  const PGSIZE: nat := 4096
  const WORD: nat := 8

  datatype Layout = Layout(full: nat, recordPages: nat, realSize: nat)

  function Min(x: nat, y: nat): nat {
    if x < y then x else y
  }

  lemma {:induction false} Division(f: nat)
    ensures f * WORD * 2 / PGSIZE <= f / 256
  {
  }

  function Sizing(n: nat): Layout
    requires 1 <= n < MACRO_RANGE
  {
    if n < 512 then
      var full := PowerRoundUp(n - 1);
      Layout(full, 1, Min(full, n - 1))
    else
      RoundingCorrect(n);
      Division(PowerRoundDown(n));
      var full := PowerRoundDown(n);
      var pages := full * WORD * 2 / PGSIZE;
      if n > full + pages * 2 then
        Layout(full * 2, pages * 2, Min(full * 2, n - pages * 2))
      else
        Layout(full, pages, Min(full, n - pages))
  }

  lemma {:induction false} SizingSmall(n: nat)
    requires 2 <= n < 512
    ensures Sizing(n) == Layout(Exp2(CeilLog(n - 1)), 1, n - 1)
  {
    RoundingCorrect(n - 1);
  }

  lemma {:induction false} LargePower(n: nat)
    requires 512 <= n < MACRO_RANGE
    ensures Top(n) >= 9 && Exp2(Top(n)) == 512 * Exp2(Top(n) - 9)
  {
    Exp2Small();
    if Top(n) < 9 { Exp2Grows(Top(n), 9); }
    Exp2Multiple(9, Top(n));
  }

  lemma {:induction false} SizingLarge(n: nat) returns (q: nat)
    requires 512 <= n < MACRO_RANGE
    ensures Top(n) >= 9 && q == Exp2(Top(n) - 9) && 512 * q <= n < 1024 * q
    ensures Exp2(Top(n)) == 512 * q && Exp2(Top(n) + 1) == 1024 * q
    ensures n > 516 * q ==> Sizing(n) == Layout(1024 * q, 4 * q, n - 4 * q)
    ensures n <= 516 * q ==> Sizing(n) == Layout(512 * q, 2 * q, Min(512 * q, n - 2 * q))
  {
    LargePower(n);
    RoundingCorrect(n);
    q := Exp2(Top(n) - 9);
    assert 512 * q * WORD * 2 / PGSIZE == 2 * q;
  }

  // The record pages have room for every node exactly outside 258 .. 511: there
  // a 512-leaf tree is given a single page of 512 records.
  lemma {:induction false} RecordFits(n: nat)
    requires 2 <= n < MACRO_RANGE
    ensures 2 * Sizing(n).full <= Sizing(n).recordPages * (PGSIZE / WORD) <==> !(258 <= n < 512)
  {
    if n >= 512 {
      var q := SizingLarge(n);
    } else {
      SizingSmall(n);
      Exp2Small();
      var c := CeilLog(n - 1);
      if c < 8 {
        Exp2Grows(c, 8);
      } else if c > 8 {
        Exp2Grows(8, c);
      }
    }
  }

  // The least number of pages for which they have not.
  lemma {:induction false} RecordFailsAt258()
    ensures 2 * Sizing(258).full > Sizing(258).recordPages * (PGSIZE / WORD)
  {
    RecordFits(258);
  }

  lemma {:induction false} SizingBounds(n: nat) returns (h: nat)
    requires 2 <= n < MACRO_RANGE
    ensures var s := Sizing(n);
      && s.full == Exp2(h)
      && s.recordPages + s.realSize <= n
      && 0 < s.realSize <= s.full < 2 * s.realSize
      && n - s.recordPages - s.realSize <= s.recordPages
  {
    if n < 512 {
      SizingSmall(n);
      h := CeilLog(n - 1);
    } else {
      var q := SizingLarge(n);
      h := if n > 516 * q then Top(n) + 1 else Top(n);
    }
  }
}
