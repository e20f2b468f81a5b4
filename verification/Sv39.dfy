// Sv39 addresses and page-table entries: lab3/kern/mm/mmu.h and the conversions
// of lab3/kern/mm/pmm.h. Words are natural numbers.

module Sv39 {
  import opened Arith
  import opened Bits

  const PTE_V: nat := 1
  const PTE_U: nat := 16
  const WORDS: nat := 512
  const FLAGS: nat := 1024

  // PDX1, PDX0 and PTX of a linear address.
  datatype Vpn = Vpn(i: nat, j: nat, k: nat) {
    predicate InRange() { i < WORDS && j < WORDS && k < WORDS }
  }

  function VpnOf(la: nat): (v: Vpn)
    ensures v.InRange()
  {
    Vpn(la / 0x4000_0000 % 512, la / 0x20_0000 % 512, la / 0x1000 % 512)
  }

  // Two addresses share an entry exactly when bits 12 to 38 agree.
  lemma {:induction false} SameEntry(la: nat, la': nat)
    ensures VpnOf(la) == VpnOf(la') <==> la / 0x1000 % 0x800_0000 == la' / 0x1000 % 0x800_0000
  {
    hide VpnOf;
    VpnNumber(la);
    VpnNumber(la');
    if Number(VpnOf(la)) == Number(VpnOf(la')) {
      NumberInjective(VpnOf(la), VpnOf(la'));
    }
  }

  // Bits 12 to 38 as one number.
  function Number(v: Vpn): nat {
    0x4_0000 * v.i + 0x200 * v.j + v.k
  }

  lemma {:induction false} NumberInjective(v: Vpn, w: Vpn)
    requires v.InRange() && w.InRange() && Number(v) == Number(w)
    ensures v == w
  {
    DivideOut(0x200, 0x200 * v.i + v.j, v.k);
    DivideOut(0x200, 0x200 * w.i + w.j, w.k);
    DivideOut(0x200, v.i, v.j);
    DivideOut(0x200, w.i, w.j);
  }

  lemma {:induction false} VpnNumber(la: nat)
    ensures la / 0x1000 % 0x800_0000 == Number(VpnOf(la))
  {
    var p, off := la / 0x1000, la % 0x1000;
    var p1, k := p / 0x200, p % 0x200;
    var p2, j := p1 / 0x200, p1 % 0x200;
    var p3, i := p2 / 0x200, p2 % 0x200;
    DivideOut(0x20_0000, p1, 0x1000 * k + off);
    DivideOut(0x4000_0000, p2, 0x20_0000 * j + 0x1000 * k + off);
    DivideOut(0x800_0000, p3, 0x4_0000 * i + 0x200 * j + k);
  }

  // pte_create
  function PteCreate(ppn: nat, flags: nat): nat {
    Or(Or(Times(ppn, FLAGS), PTE_V), flags)
  }

  predicate IsValid(pte: nat) {
    And(pte, PTE_V) != 0
  }

  // PTE_ADDR: (pte & ~0x3FF) << 2
  function PteAddr(pte: nat): nat {
    Times(Quotient(pte, FLAGS), 4096)
  }

  // PPN
  function Ppn(pa: nat): nat {
    Quotient(pa, 4096)
  }

  lemma {:induction false} OrHigh(x: nat, y: nat, k: nat)
    requires y < Exp2(k)
    ensures Or(Times(x, Exp2(k)), y) == Times(x, Exp2(k)) + y
    decreases k
  {
    if k > 0 {
      var h := Exp2(k - 1);
      TimesDouble(x, h);
      TimesSplit(x, x, h);
      HalfOf(Times(x, h), false);
      OrHigh(x, Half(y), k - 1);
      OrAtLeast(Times(x, h), Half(y));
    }
  }

  lemma {:induction false} FlagsAre(k: nat)
    requires k == 10
    ensures Exp2(k) == FLAGS
  {
    assert Exp2(5) == 32;
    Exp2Times(5, 5);
    TimesIsProduct(32, 32);
  }

  // Or-ing in flags stays below the page number.
  lemma {:induction false} CreateIsSum(ppn: nat, flags: nat) returns (low: nat)
    requires flags < FLAGS
    ensures low == Or(PTE_V, flags) < FLAGS
    ensures PteCreate(ppn, flags) == Times(ppn, FLAGS) + low
  {
    var k := 10;
    FlagsAre(k);
    low := Or(PTE_V, flags);
    OrBelow(PTE_V, flags, k);
    OrHigh(ppn, PTE_V, k);
    OrHigh(ppn, flags, k);
    OrHigh(ppn, low, k);
    OrAssociates(Times(ppn, FLAGS), PTE_V, flags);
  }

  lemma {:induction false} OrAssociates(x: nat, y: nat, z: nat)
    ensures Or(Or(x, y), z) == Or(x, Or(y, z))
  {
    forall i: nat ensures Bit(Or(Or(x, y), z), i) == Bit(Or(x, Or(y, z)), i) {
      OrBit(Or(x, y), z, i);
      OrBit(x, y, i);
      OrBit(x, Or(y, z), i);
      OrBit(y, z, i);
    }
    SameBits(Or(Or(x, y), z), Or(x, Or(y, z)));
  }

  // The valid bit is set once and for all.
  lemma {:induction false} ValidTwice(ppn: nat, flags: nat)
    ensures PteCreate(ppn, Or(PTE_V, flags)) == PteCreate(ppn, flags)
  {
    var x := Times(ppn, FLAGS);
    OrAssociates(Or(x, PTE_V), PTE_V, flags);
    OrAssociates(x, PTE_V, PTE_V);
    assert Or(PTE_V, PTE_V) == PTE_V;
  }

  lemma {:induction false} QuotientOfSum(q: nat, y: nat, r: nat)
    requires r < y
    ensures Quotient(Times(q, y) + r, y) == q
    decreases q
  {
    if q > 0 {
      QuotientOfSum(q - 1, y, r);
    }
  }

  lemma {:induction false} ValidBit(pte: nat)
    ensures IsValid(pte) <==> Odd(pte)
  {
    assert Exp2(0) == PTE_V;
    MaskCommutes(pte);
    MaskBit(0, pte);
  }

  lemma {:induction false} MaskCommutes(x: nat)
    ensures And(x, PTE_V) == And(PTE_V, x)
  {
    forall i: nat ensures Bit(And(x, PTE_V), i) == Bit(And(PTE_V, x), i) {
      AndBit(x, PTE_V, i);
      AndBit(PTE_V, x, i);
    }
    SameBits(And(x, PTE_V), And(PTE_V, x));
  }

  // An entry made for a page is valid and leads back to that page, whatever the
  // flags; a cleared entry is not valid.
  lemma {:induction false} EntryDecodes(ppn: nat, flags: nat)
    requires flags < FLAGS
    ensures IsValid(PteCreate(ppn, flags))
    ensures Ppn(PteAddr(PteCreate(ppn, flags))) == ppn
    ensures !IsValid(0)
  {
    var low := CreateIsSum(ppn, flags);
    QuotientOfSum(ppn, FLAGS, low);
    QuotientOfSum(ppn, 4096, 0);
    ValidBit(0);
    ValidBit(PteCreate(ppn, flags));
    OrBit(Or(Times(ppn, FLAGS), PTE_V), flags, 0);
    OrBit(Times(ppn, FLAGS), PTE_V, 0);
  }

  // The word of an entry: the page number from bit 10 on, the flags below it,
  // and the valid bit set.
  lemma {:induction false} EntryWord(ppn: nat, flags: nat)
    requires flags < 1024
    ensures PteCreate(ppn, flags) == 1024 * ppn + flags + if flags % 2 == 0 then 1 else 0
    ensures PteCreate(ppn, flags) / 1024 == ppn && PteCreate(ppn, flags) % 2 == 1
    ensures PteCreate(ppn, flags) % 1024 == flags + if flags % 2 == 0 then 1 else 0
  {
    var low := CreateIsSum(ppn, flags);
    HalfDivision(flags);
    assert low == flags + if flags % 2 == 0 then 1 else 0;
    TimesIsProduct(ppn, 1024);
    DivideOut(1024, ppn, low);
    DivideOut(2, 512 * ppn + low / 2, 1);
  }

  lemma {:induction false} OrOfTimes(x: nat, y: nat, k: nat)
    ensures Or(Times(x, Exp2(k)), Times(y, Exp2(k))) == Times(Or(x, y), Exp2(k))
    decreases k
  {
    if k == 0 {
      TimesIsProduct(x, 1);
      TimesIsProduct(y, 1);
      TimesIsProduct(Or(x, y), 1);
    } else {
      var h := Exp2(k - 1);
      TimesDouble(x, h);
      TimesDouble(y, h);
      TimesDouble(Or(x, y), h);
      TimesSplit(x, x, h);
      TimesSplit(y, y, h);
      TimesSplit(Or(x, y), Or(x, y), h);
      HalfOf(Times(x, h), false);
      HalfOf(Times(y, h), false);
      OrOfTimes(x, y, k - 1);
    }
  }

  lemma {:induction false} SplitFlags(flags: nat) returns (low: nat)
    ensures low < FLAGS && flags == Times(Quotient(flags, FLAGS), FLAGS) + low
    decreases flags
  {
    if flags < FLAGS {
      low := flags;
    } else {
      low := SplitFlags(flags - FLAGS);
    }
  }

  lemma {:induction false} OrSwap(a: nat, b: nat, c: nat, d: nat)
    ensures Or(Or(a, b), Or(c, d)) == Or(Or(a, c), Or(b, d))
  {
    forall i: nat ensures Bit(Or(Or(a, b), Or(c, d)), i) == Bit(Or(Or(a, c), Or(b, d)), i) {
      OrBit(Or(a, b), Or(c, d), i);
      OrBit(a, b, i);
      OrBit(c, d, i);
      OrBit(Or(a, c), Or(b, d), i);
      OrBit(a, c, i);
      OrBit(b, d, i);
    }
    SameBits(Or(Or(a, b), Or(c, d)), Or(Or(a, c), Or(b, d)));
  }

  lemma {:induction false} CreateWide(ppn: nat, high: nat, low: nat, e: nat, k: nat)
    requires e == Exp2(k) && low < e && 1 < e
    ensures Or(PTE_V, low) < e
    ensures Or(Or(Times(ppn, e), PTE_V), Times(high, e) + low) == Times(Or(ppn, high), e) + Or(PTE_V, low)
  {
    OrHigh(high, low, k);
    OrSwap(Times(ppn, e), PTE_V, Times(high, e), low);
    OrOfTimes(ppn, high, k);
    OrBelow(PTE_V, low, k);
    OrHigh(Or(ppn, high), Or(PTE_V, low), k);
  }

  // The page number an entry leads to, for any flag word.
  lemma {:induction false} WidePage(ppn: nat, flags: nat)
    ensures Ppn(PteAddr(PteCreate(ppn, flags))) == Or(ppn, Quotient(flags, FLAGS))
  {
    var k, high := 10, Quotient(flags, FLAGS);
    FlagsAre(k);
    var low := SplitFlags(flags);
    CreateWide(ppn, high, low, FLAGS, k);
    QuotientOfSum(Or(ppn, high), FLAGS, Or(PTE_V, low));
    QuotientOfSum(Or(ppn, high), 4096, 0);
  }

  // The page number survives exactly when the part of the flag word above its
  // ten low bits adds nothing to it.
  lemma {:induction false} PageSurvives(ppn: nat, flags: nat)
    ensures Ppn(PteAddr(PteCreate(ppn, flags))) == ppn <==> Or(ppn, Quotient(flags, FLAGS)) == ppn
  {
    WidePage(ppn, flags);
  }

  // Then only the ten low bits count.
  lemma {:induction false} LowFlags(ppn: nat, flags: nat)
    requires Or(ppn, Quotient(flags, FLAGS)) == ppn
    ensures PteCreate(ppn, flags) == PteCreate(ppn, flags % FLAGS)
  {
    var k, high := 10, Quotient(flags, FLAGS);
    FlagsAre(k);
    var low := SplitFlags(flags);
    TimesIsProduct(high, FLAGS);
    DivideOut(FLAGS, high, low);
    CreateWide(ppn, high, low, FLAGS, k);
    var sum := CreateIsSum(ppn, low);
  }

  // An eleventh flag bit turns page 0 into page 1.
  lemma {:induction false} PageChangesAtFlag10()
    ensures Ppn(PteAddr(PteCreate(0, FLAGS))) == 1
  {
    WidePage(0, FLAGS);
    QuotientOfTimes(1, FLAGS);
    TimesIsProduct(1, FLAGS);
  }
}
