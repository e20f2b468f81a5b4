// Division facts that need a multiplication spelled out.

module Arith {

  // x * y by repeated addition, for definitions that many proofs unfold.
  function Times(x: nat, y: nat): nat {
    if x == 0 then 0 else Times(x - 1, y) + y
  }

  lemma {:induction false} TimesIsProduct(x: nat, y: nat)
    ensures Times(x, y) == x * y
    decreases x
  {
    if x > 0 {
      TimesIsProduct(x - 1, y);
      assert x * y == (x - 1) * y + y;
    }
  }

  lemma {:induction false} TimesDouble(x: nat, y: nat)
    ensures Times(x + x, y) == Times(x, y + y)
    decreases x
  {
    if x > 0 {
      TimesDouble(x - 1, y);
      assert Times(x + x, y) == Times(x + x - 1, y) + y;
    }
  }

  // k rows of y below p rows of y.
  lemma {:induction false} TimesBelow(k: nat, p: nat, y: nat)
    requires k < p
    ensures Times(k, y) + y <= Times(p, y)
    decreases p
  {
    if k < p - 1 {
      TimesBelow(k, p - 1, y);
    }
  }

  // x / y by repeated subtraction.
  function Quotient(x: nat, y: nat): nat
    requires y >= 1
    decreases x
  {
    if x < y then 0 else Quotient(x - y, y) + 1
  }

  lemma {:induction false} QuotientOfTimes(q: nat, y: nat)
    requires y >= 1
    ensures Quotient(Times(q, y), y) == q
    decreases q
  {
    if q > 0 {
      QuotientOfTimes(q - 1, y);
    }
  }

  lemma {:induction false} QuotientIsDivision(x: nat, y: nat)
    requires y >= 1
    ensures Quotient(x, y) == x / y
    decreases x
  {
    if x >= y {
      QuotientIsDivision(x - y, y);
      DivideOut(y, (x - y) / y + 1, (x - y) % y);
    } else {
      DivideOut(y, 0, x);
    }
  }

  lemma {:induction false} TimesSplit(x: nat, x': nat, y: nat)
    ensures Times(x + x', y) == Times(x, y) + Times(x', y)
    decreases x
  {
    if x > 0 {
      TimesSplit(x - 1, x', y);
      assert Times(x + x', y) == Times(x + x' - 1, y) + y;
    }
  }

  lemma {:induction false} Monotone(x: nat, y: nat, z: nat)
    requires x <= y
    ensures x * z <= y * z
  {
  }

  lemma {:induction false} DivideOut(p: nat, q: nat, r: nat)
    requires r < p
    ensures (p * q + r) / p == q && (p * q + r) % p == r
  {
    var d := (p * q + r) / p;
    if d < q {
      Monotone(d + 1, q, p);
    } else if d > q {
      Monotone(q + 1, d, p);
    }
  }

  lemma {:induction false} ModOfMultiple(p: nat, m: nat)
    requires p >= 1
    ensures (p * m) % p == 0 && (p * m) / p == m
  {
    DivideOut(p, m, 0);
  }

  lemma {:induction false} AddAligned(a: nat, b: nat, w: nat)
    requires w >= 1 && a % w == 0 && b % w == 0
    ensures (a + b) % w == 0
  {
    assert a + b == w * (a / w + b / w);
    ModOfMultiple(w, a / w + b / w);
  }

  // A block of w units at a multiple of w lies on one side of any multiple of w.
  lemma {:induction false} AlignedSide(mid: nat, b: nat, w: nat)
    requires w >= 1 && mid % w == 0 && b % w == 0
    ensures b + w <= mid || mid <= b
  {
    var q, m := b / w, mid / w;
    assert b == w * q && mid == w * m;
    if q < m {
      Monotone(q + 1, m, w);
    } else {
      Monotone(m, q, w);
    }
  }
}
