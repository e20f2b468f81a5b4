// Where the objects of a slab lie in its page: the address arithmetic of
// lab2/kern/mm/slub.c.

module SlabLayout {
  import opened Arith
  import opened Bits

  const PGSIZE: nat := 4096

  // Objects per slab: each takes its size and two bytes of the index table.
  function Num(size: nat): (num: nat)
    ensures size <= PGSIZE - 2 ==> num >= 1
  {
    Quotient(PGSIZE, size + 2)
  }

  // Start of the page in row p, and of object i in it, after the index table.
  function PageAddress(base: nat, p: nat): nat {
    base + Times(p, PGSIZE)
  }

  function Address(base: nat, p: nat, size: nat, i: nat): nat {
    PageAddress(base, p) + (Num(size) + Num(size)) + Times(i, size)
  }

  // ROUNDDOWN(a, PGSIZE)
  function RoundDown(a: nat): nat {
    a - a % PGSIZE
  }

  lemma {:induction false} QuotientTimes(x: nat, y: nat)
    requires y >= 1
    ensures Times(Quotient(x, y), y) <= x
    decreases x
  {
    if x >= y {
      QuotientTimes(x - y, y);
    }
  }

  lemma {:induction false} TimesPlus(n: nat, x: nat, y: nat)
    ensures Times(n, x + y) == Times(n, x) + Times(n, y)
    decreases n
  {
    if n > 0 {
      TimesPlus(n - 1, x, y);
    }
  }

  // Table and objects fit in the page, the objects after the table.
  lemma {:induction false} Inside(base: nat, p: nat, size: nat, i: nat)
    requires i < Num(size)
    ensures PageAddress(base, p) + (Num(size) + Num(size)) <= Address(base, p, size, i)
    ensures Address(base, p, size, i) + size <= PageAddress(base, p) + PGSIZE
  {
    var num := Num(size);
    QuotientTimes(PGSIZE, size + 2);
    TimesPlus(num, size, 2);
    TimesPlus(num, 1, 1);
    TimesOne(num);
    TimesBelow(i, num, size);
  }

  lemma {:induction false} TimesOne(n: nat)
    ensures Times(n, 1) == n
    decreases n
  {
    if n > 0 {
      TimesOne(n - 1);
    }
  }

  // Distinct objects do not overlap, whether or not they share a page, and
  // whatever the sizes in different pages.
  lemma {:induction false} Disjoint(base: nat, p: nat, size: nat, i: nat, q: nat, size': nat, j: nat)
    requires i < Num(size) && j < Num(size')
    requires p < q || (p == q && size == size' && i < j)
    ensures Address(base, p, size, i) + size <= Address(base, q, size', j)
  {
    if p < q {
      Inside(base, p, size, i);
      Inside(base, q, size', j);
      TimesBelow(p, q, PGSIZE);
    } else {
      TimesBelow(i, j, size);
    }
  }

  // Rounding down to a page and dividing gives back the row and the index.
  lemma {:induction false} Recovered(base: nat, p: nat, size: nat, i: nat)
    requires base % PGSIZE == 0 && size >= 1 && i < Num(size)
    ensures var a := Address(base, p, size, i);
      && RoundDown(a) == PageAddress(base, p)
      && (RoundDown(a) - base) / PGSIZE == p
      && (a - (RoundDown(a) + (Num(size) + Num(size)))) / size == i
  {
    var a := Address(base, p, size, i);
    Inside(base, p, size, i);
    var off := a - PageAddress(base, p);
    InPage(base, p, off);
    TimesIsProduct(i, size);
    DivideOut(size, i, 0);
  }

  lemma {:induction false} InPage(base: nat, p: nat, off: nat)
    requires base % PGSIZE == 0 && off < PGSIZE
    ensures RoundDown(PageAddress(base, p) + off) == PageAddress(base, p)
    ensures (PageAddress(base, p) - base) / PGSIZE == p
  {
    var b := base / PGSIZE;
    TimesIsProduct(p, PGSIZE);
    assert PageAddress(base, p) + off == PGSIZE * (b + p) + off;
    DivideOut(PGSIZE, b + p, off);
    DivideOut(PGSIZE, p, 0);
  }

  // A slab holds as many objects as fit with their table entries, and no more.
  lemma {:induction false} NumIsMost(size: nat)
    ensures Num(size) * (size + 2) <= 4096 < (Num(size) + 1) * (size + 2)
  {
    QuotientIsDivision(PGSIZE, size + 2);
  }

  // Where an object lies, in bytes from the start of its page.
  lemma {:induction false} AddressIs(base: nat, p: nat, size: nat, i: nat)
    ensures Address(base, p, size, i) == base + 4096 * p + 2 * Num(size) + size * i
  {
    TimesIsProduct(p, PGSIZE);
    TimesIsProduct(i, size);
  }

  // Indices fit the 16-bit table entries, and the table fits the page.
  lemma {:induction false} NumBound(size: nat)
    requires size >= 1
    ensures Num(size) <= 1365
  {
    var num := Num(size);
    QuotientTimes(PGSIZE, size + 2);
    TimesPlus(num, size - 1, 3);
    TimesIsProduct(num, 3);
  }

  // ---------- Size classes ----------

  const SIZED_CACHE_MIN: nat := 16
  const SIZED_CACHE_MAX: nat := 2048

  // The even size asked of the sized caches.
  function Rounded(size: nat): nat {
    var rsize := size + size % 2;
    if rsize < SIZED_CACHE_MIN then SIZED_CACHE_MIN else rsize
  }

  // How often t can be halved before it is zero.
  function Halvings(t: nat): nat {
    if t == 0 then 0 else Halvings(Half(t)) + 1
  }

  lemma {:induction false} HalvingsBound(t: nat)
    ensures t < Exp2(Halvings(t)) <= if t == 0 then 1 else t + t
    decreases t
  {
    if t > 0 {
      HalvingsBound(Half(t));
    }
  }

  // Four and five doublings.
  function Four(x: nat): nat {
    var d := x + x;
    var q := d + d;
    var o := q + q;
    o + o
  }

  lemma {:induction false} Exp2Four(h: nat)
    ensures Exp2(h + 4) == Four(Exp2(h)) >= 16
  {
    assert Exp2(h + 2) == Exp2(h) + Exp2(h) + Exp2(h) + Exp2(h);
  }

  lemma {:induction false} Over32(r: nat)
    ensures var t := r / 32; Four(t + t) <= r < Four(t + t) + 32
  {
  }

  // The class chosen for a size, and the object size of that class.
  function ClassOf(size: nat): nat {
    Halvings(Rounded(size) / 32)
  }

  function ClassSize(size: nat): nat {
    Exp2(ClassOf(size) + 4)
  }

  // kmem_sized_index
  method SizedIndex(size: nat) returns (index: nat)
    ensures index == ClassOf(size)
  {
    var rsize := size + size % 2;
    if rsize < SIZED_CACHE_MIN {
      rsize := SIZED_CACHE_MIN;
    }
    index := 0;
    var t: nat := rsize / 32;
    while t != 0
      invariant index + Halvings(t) == ClassOf(size)
      decreases t
    {
      t, index := Half(t), index + 1;
    }
  }

  // The class is the largest that is no larger than the rounded size.
  lemma {:induction false} ClassBelow(size: nat)
    ensures 16 <= ClassSize(size) <= Rounded(size) < ClassSize(size) + ClassSize(size)
  {
    hide Exp2, Halvings, Rounded;
    var t := Rounded(size) / 32;
    HalvingsBound(t);
    Exp2Four(Halvings(t));
    Over32(Rounded(size));
    RoundedUp(size);
  }

  lemma {:induction false} ClassIndex(size: nat)
    requires size <= SIZED_CACHE_MAX
    ensures ClassOf(size) < 8
  {
    hide Exp2, Halvings;
    var h := ClassOf(size);
    ClassBelow(size);
    Exp2Four(h);
    FromClass8(h);
  }

  lemma {:induction false} FromClass8(h: nat)
    ensures h >= 8 ==> Exp2(h) >= 256
  {
    if h >= 8 {
      Exp2Grows(7, h);
      assert Exp2(5) == 32;
    }
  }

  // So an object of the class holds the size asked for exactly when the rounded
  // size is a power of two.
  lemma {:induction false} ClassHolds(size: nat)
    ensures size <= ClassSize(size) <==> exists k: nat :: Rounded(size) == Exp2(k)
  {
    hide Halvings, Rounded, Exp2;
    var k := ClassOf(size) + 4;
    ClassBelow(size);
    ClassExact(size, k);
    if j: nat :| Rounded(size) == Exp2(j) {
      Exp2Injective(j, k);
      RoundedUp(size);
    }
  }

  // A class that is no smaller than the size is no smaller than the even size.
  lemma {:induction false} ClassExact(size: nat, k: nat)
    requires k >= 4 && Exp2(k) <= Rounded(size)
    ensures size <= Exp2(k) ==> Rounded(size) == Exp2(k)
  {
    hide Exp2;
    Exp2Four(k - 4);
    Evenness(size, Exp2(k - 4));
  }

  lemma {:induction false} Evenness(size: nat, x: nat)
    ensures size % 2 == 1 ==> size != Four(x)
  {
    assert Four(x) % 2 == 0;
  }

  // The least even number that is at least the size and at least 16.
  lemma {:induction false} RoundedIsLeast(size: nat, r: nat)
    ensures Rounded(size) % 2 == 0 && size <= Rounded(size) && 16 <= Rounded(size)
    ensures r % 2 == 0 && size <= r && 16 <= r ==> Rounded(size) <= r
  {
    if size % 2 == 1 {
      assert (size + 1) % 2 == 0;
    }
  }

  lemma {:induction false} RoundedUp(size: nat)
    ensures size <= Rounded(size) && 16 <= Rounded(size)
  {
  }

  // A request for 17 bytes is given an object of 16.
  lemma {:induction false} ClassFailsAt17()
    ensures ClassSize(17) == 16
  {
    assert Halvings(0) == 0;
  }
}
