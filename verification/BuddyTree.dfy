// The buddy allocator as a tree of blocks. A node of height h covers the 2^h
// pages from base on; its record is the bitwise or of the lengths of the free
// blocks beneath it (lab2/kern/mm/buddy.c).

module BuddyTree {
  import opened Arith
  import opened Bits

  // Absent: pages past the end of the real area.
  datatype Tree = Free | Allocated | Absent | Split(left: Tree, right: Tree)

  function Rec(t: Tree, h: nat): nat
    decreases t, h
  {
    match t
    case Free => Exp2(h)
    case Split(l, r) => if h == 0 then 0 else Or(Rec(l, h - 1), Rec(r, h - 1))
    case _ => 0
  }

  // The shape every reachable tree has: nothing is split without need, and the
  // pages from `end` on are absent.
  predicate Canonical(t: Tree, base: nat, h: nat, end: nat)
    decreases t, base, h, end
  {
    match t
    case Absent => end <= base
    case Free => base + Exp2(h) <= end
    case Allocated => base + Exp2(h) <= end
    case Split(l, r) =>
      && h > 0 && base < end
      && !(l.Free? && r.Free?)
      && Canonical(l, base, h - 1, end)
      && Canonical(r, base + Exp2(h - 1), h - 1, end)
  }

  // Length of the free block headed by page b, or 0.
  function FreeLen(t: Tree, base: nat, h: nat, b: nat): nat
    decreases t, base, h, b
  {
    match t
    case Free => if b == base then Exp2(h) else 0
    case Split(l, r) =>
      if h == 0 then 0
      else if b < base + Exp2(h - 1) then FreeLen(l, base, h - 1, b)
      else FreeLen(r, base + Exp2(h - 1), h - 1, b)
    case _ => 0
  }

  // Length of the block handed out at page b, or 0.
  function UsedLen(t: Tree, base: nat, h: nat, b: nat): nat
    decreases t, base, h, b
  {
    match t
    case Allocated => if b == base then Exp2(h) else 0
    case Split(l, r) =>
      if h == 0 then 0
      else if b < base + Exp2(h - 1) then UsedLen(l, base, h - 1, b)
      else UsedLen(r, base + Exp2(h - 1), h - 1, b)
    case _ => 0
  }

  predicate PageFree(t: Tree, base: nat, h: nat, page: nat)
    decreases t, base, h, page
  {
    match t
    case Free => base <= page < base + Exp2(h)
    case Split(l, r) =>
      if h == 0 then false
      else if page < base + Exp2(h - 1) then PageFree(l, base, h - 1, page)
      else PageFree(r, base + Exp2(h - 1), h - 1, page)
    case _ => false
  }

  function FreeTotal(t: Tree, h: nat): nat
    decreases t, h
  {
    match t
    case Free => Exp2(h)
    case Split(l, r) => if h == 0 then 0 else FreeTotal(l, h - 1) + FreeTotal(r, h - 1)
    case _ => 0
  }

  // ---------- Records ----------

  // A record equals the node length exactly when the node is wholly free.
  lemma {:induction false} RecBound(t: Tree, base: nat, h: nat, end: nat)
    requires Canonical(t, base, h, end)
    ensures Rec(t, h) <= Exp2(h)
    ensures Rec(t, h) == Exp2(h) <==> t.Free?
    decreases t
  {
    match t
    case Split(l, r) =>
      RecBound(l, base, h - 1, end);
      RecBound(r, base + Exp2(h - 1), h - 1, end);
      OrBelow(Rec(l, h - 1), Rec(r, h - 1), h);
    case _ =>
  }

  // ---------- Allocation ----------

  // A way down from a node.
  datatype Path = Here | Left(rest: Path) | Right(rest: Path)

  // Page reached by a path.
  function Reach(base: nat, h: nat, p: Path): nat
    decreases p, base, h
  {
    match p
    case Here => base
    case Left(q) => if h == 0 then base else Reach(base, h - 1, q)
    case Right(q) => if h == 0 then base else Reach(base + Exp2(h - 1), h - 1, q)
  }

  // The path ends at 2^k wholly free pages.
  predicate Leads(t: Tree, h: nat, p: Path, k: nat)
    decreases p, t, h, k
  {
    match p
    case Here => t.Free? && h == k
    case Left(q) => h > 0 && if t.Split? then Leads(t.left, h - 1, q, k) else t.Free? && Leads(Free, h - 1, q, k)
    case Right(q) => h > 0 && if t.Split? then Leads(t.right, h - 1, q, k) else t.Free? && Leads(Free, h - 1, q, k)
  }

  // Hand out the node a path ends at, splitting free nodes on the way.
  function Carve(t: Tree, p: Path): Tree
    decreases p, t
  {
    match p
    case Here => Allocated
    case Left(q) => if t.Split? then Split(Carve(t.left, q), t.right) else Split(Carve(Free, q), Free)
    case Right(q) => if t.Split? then Split(t.left, Carve(t.right, q)) else Split(Free, Carve(Free, q))
  }

  // The branch the descent for 2^k pages takes below a split node.
  predicate GoLeft(l: Tree, r: Tree, h: nat, k: nat) {
    if And(Exp2(k), Rec(l, h)) != 0 then true
    else if And(Exp2(k), Rec(r, h)) != 0 then false
    else Exp2(k) <= Rec(l, h)
  }

  function Descent(t: Tree, h: nat, k: nat): Path
    decreases h, t, k
  {
    if k >= h then Here
    else match t
      case Split(l, r) =>
        if GoLeft(l, r, h - 1, k) then Left(Descent(l, h - 1, k)) else Right(Descent(r, h - 1, k))
      case _ => Left(Descent(Free, h - 1, k))
  }

  function Take(t: Tree, h: nat, k: nat): Tree {
    Carve(t, Descent(t, h, k))
  }

  function TakeAt(t: Tree, h: nat, k: nat): nat {
    Reach(0, h, Descent(t, h, k))
  }

  ghost predicate Fits(t: Tree, base: nat, h: nat, end: nat, k: nat) {
    Canonical(t, base, h, end) && Exp2(k) <= Rec(t, h)
  }

  // The child the descent picks can serve the request.
  lemma {:induction false} DescentFits(l: Tree, r: Tree, h: nat, k: nat)
    requires Exp2(k) <= Or(Rec(l, h), Rec(r, h))
    ensures Exp2(k) <= if GoLeft(l, r, h, k) then Rec(l, h) else Rec(r, h)
  {
    OrReaches(Rec(l, h), Rec(r, h), k);
    MaskBit(k, Rec(l, h));
    MaskBit(k, Rec(r, h));
    if Bit(Rec(l, h), k) {
      BitAtMost(Rec(l, h), k);
    } else if Bit(Rec(r, h), k) {
      BitAtMost(Rec(r, h), k);
    }
  }

  // What the record says about a node that fits the request.
  lemma {:induction false} FitsBelow(t: Tree, base: nat, h: nat, end: nat, k: nat)
    requires Fits(t, base, h, end, k)
    ensures k <= h && (t.Free? || t.Split?)
    ensures k == h ==> t.Free?
    ensures t.Split? ==> var l, r := t.left, t.right;
      if GoLeft(l, r, h - 1, k) then Fits(l, base, h - 1, end, k)
      else Fits(r, base + Exp2(h - 1), h - 1, end, k)
    ensures t.Free? && k < h ==> Fits(Free, base, h - 1, end, k)
  {
    RecBound(t, base, h, end);
    if h < k {
      Exp2Grows(h, k);
    } else if k < h {
      Exp2Grows(k, h);
    }
    if t.Split? {
      DescentFits(t.left, t.right, h - 1, k);
    }
  }

  // The descent never gets stuck.
  lemma {:induction false} DescentLeads(t: Tree, base: nat, h: nat, end: nat, k: nat)
    requires Fits(t, base, h, end, k)
    ensures Leads(t, h, Descent(t, h, k), k)
    decreases h
  {
    FitsBelow(t, base, h, end, k);
    if k < h {
      match t
      case Split(l, r) =>
        if GoLeft(l, r, h - 1, k) {
          DescentLeads(l, base, h - 1, end, k);
        } else {
          DescentLeads(r, base + Exp2(h - 1), h - 1, end, k);
        }
      case Free =>
        DescentLeads(Free, base, h - 1, end, k);
    }
  }

  // ---------- What handing out a block changes ----------

  lemma {:induction false} CarveCanonical(t: Tree, base: nat, h: nat, end: nat, p: Path, k: nat)
    requires Canonical(t, base, h, end) && Leads(t, h, p, k)
    ensures Canonical(Carve(t, p), base, h, end) && !Carve(t, p).Free?
    decreases p
  {
    match p
    case Here =>
    case Left(q) =>
      CarveCanonical(if t.Split? then t.left else Free, base, h - 1, end, q, k);
    case Right(q) =>
      CarveCanonical(if t.Split? then t.right else Free, base + Exp2(h - 1), h - 1, end, q, k);
  }

  lemma {:induction false} CarveTotal(t: Tree, h: nat, p: Path, k: nat)
    requires Leads(t, h, p, k)
    ensures FreeTotal(Carve(t, p), h) == FreeTotal(t, h) - Exp2(k)
    decreases p
  {
    match p
    case Here =>
    case Left(q) => CarveTotal(if t.Split? then t.left else Free, h - 1, q, k);
    case Right(q) => CarveTotal(if t.Split? then t.right else Free, h - 1, q, k);
  }

  lemma {:induction false} ReachInside(t: Tree, base: nat, h: nat, end: nat, p: Path, k: nat)
    requires Canonical(t, base, h, end) && Leads(t, h, p, k)
    ensures base <= Reach(base, h, p)
    ensures Reach(base, h, p) + Exp2(k) <= base + Exp2(h)
    ensures Reach(base, h, p) + Exp2(k) <= end
    decreases p
  {
    match p
    case Here =>
    case Left(q) =>
      ReachInside(if t.Split? then t.left else Free, base, h - 1, end, q, k);
    case Right(q) =>
      ReachInside(if t.Split? then t.right else Free, base + Exp2(h - 1), h - 1, end, q, k);
  }

  // The run handed out was wholly free and held no block handed out before.
  lemma {:induction false} CarvedWasFree(t: Tree, base: nat, h: nat, end: nat, p: Path, k: nat, b: nat)
    requires Canonical(t, base, h, end) && Leads(t, h, p, k)
    requires Reach(base, h, p) <= b < Reach(base, h, p) + Exp2(k)
    ensures PageFree(t, base, h, b) && UsedLen(t, base, h, b) == 0
    decreases p
  {
    ReachInside(t, base, h, end, p, k);
    match p
    case Here =>
    case Left(q) =>
      var s := if t.Split? then t.left else Free;
      ReachInside(s, base, h - 1, end, q, k);
      CarvedWasFree(s, base, h - 1, end, q, k, b);
    case Right(q) =>
      var s := if t.Split? then t.right else Free;
      ReachInside(s, base + Exp2(h - 1), h - 1, end, q, k);
      CarvedWasFree(s, base + Exp2(h - 1), h - 1, end, q, k, b);
  }

  // Exactly the pages of the run stop being free.
  lemma {:induction false} CarvePages(t: Tree, base: nat, h: nat, end: nat, p: Path, k: nat, b: nat)
    requires Canonical(t, base, h, end) && Leads(t, h, p, k)
    ensures PageFree(Carve(t, p), base, h, b)
       <==> PageFree(t, base, h, b) && !(Reach(base, h, p) <= b < Reach(base, h, p) + Exp2(k))
    decreases p
  {
    match p
    case Here =>
    case Left(q) =>
      var s := if t.Split? then t.left else Free;
      ReachInside(s, base, h - 1, end, q, k);
      CarvePages(s, base, h - 1, end, q, k, b);
    case Right(q) =>
      var s := if t.Split? then t.right else Free;
      ReachInside(s, base + Exp2(h - 1), h - 1, end, q, k);
      CarvePages(s, base + Exp2(h - 1), h - 1, end, q, k, b);
  }

  // Exactly one block is added to those handed out.
  lemma {:induction false} CarveUsed(t: Tree, base: nat, h: nat, end: nat, p: Path, k: nat, b: nat)
    requires Canonical(t, base, h, end) && Leads(t, h, p, k)
    ensures UsedLen(Carve(t, p), base, h, b)
         == if b == Reach(base, h, p) then Exp2(k) else UsedLen(t, base, h, b)
    decreases p
  {
    match p
    case Here =>
    case Left(q) =>
      var s := if t.Split? then t.left else Free;
      ReachInside(s, base, h - 1, end, q, k);
      CarveUsed(s, base, h - 1, end, q, k, b);
    case Right(q) =>
      var s := if t.Split? then t.right else Free;
      ReachInside(s, base + Exp2(h - 1), h - 1, end, q, k);
      CarveUsed(s, base + Exp2(h - 1), h - 1, end, q, k, b);
  }

  // What one allocation does to the whole tree: the run it returns lies inside
  // the real area and was free throughout, it becomes a used block, and no
  // other page or block changes.
  lemma {:induction false} TakeEffect(t: Tree, h: nat, end: nat, k: nat, b: nat)
    requires Fits(t, 0, h, end, k)
    ensures var t', at := Take(t, h, k), TakeAt(t, h, k);
      && Canonical(t', 0, h, end)
      && at + Exp2(k) <= Exp2(h) && at + Exp2(k) <= end
      && FreeTotal(t', h) == FreeTotal(t, h) - Exp2(k)
      && (at <= b < at + Exp2(k) ==> PageFree(t, 0, h, b) && UsedLen(t, 0, h, b) == 0)
      && (PageFree(t', 0, h, b) <==> PageFree(t, 0, h, b) && !(at <= b < at + Exp2(k)))
      && UsedLen(t', 0, h, b) == (if b == at then Exp2(k) else UsedLen(t, 0, h, b))
  {
    var p := Descent(t, h, k);
    DescentLeads(t, 0, h, end, k);
    CarveCanonical(t, 0, h, end, p, k);
    CarveTotal(t, h, p, k);
    ReachInside(t, 0, h, end, p, k);
    if Reach(0, h, p) <= b < Reach(0, h, p) + Exp2(k) {
      CarvedWasFree(t, 0, h, end, p, k, b);
    }
    CarvePages(t, 0, h, end, p, k, b);
    CarveUsed(t, 0, h, end, p, k, b);
  }

  // ---------- Freeing ----------

  function Merge(l: Tree, r: Tree): Tree {
    if l.Free? && r.Free? then Free else Split(l, r)
  }

  // The way to the block handed out at page b.
  function Locate(t: Tree, base: nat, h: nat, b: nat): Path
    decreases t, base, h, b
  {
    if !t.Split? || h == 0 then Here
    else if b < base + Exp2(h - 1) then Left(Locate(t.left, base, h - 1, b))
    else Right(Locate(t.right, base + Exp2(h - 1), h - 1, b))
  }

  // The path ends at a used block of 2^k pages.
  predicate Holds(t: Tree, h: nat, p: Path, k: nat)
    decreases p, t, h, k
  {
    match p
    case Here => t.Allocated? && h == k
    case Left(q) => h > 0 && t.Split? && Holds(t.left, h - 1, q, k)
    case Right(q) => h > 0 && t.Split? && Holds(t.right, h - 1, q, k)
  }

  // Give back the node a path ends at, merging free neighbours on the way up.
  function Restore(t: Tree, p: Path): Tree
    decreases p, t
  {
    match p
    case Here => Free
    case Left(q) => if t.Split? then Merge(Restore(t.left, q), t.right) else t
    case Right(q) => if t.Split? then Merge(t.left, Restore(t.right, q)) else t
  }

  function Release(t: Tree, h: nat, b: nat): Tree {
    Restore(t, Locate(t, 0, h, b))
  }

  lemma {:induction false} LocateHolds(t: Tree, base: nat, h: nat, b: nat) returns (k: nat)
    requires UsedLen(t, base, h, b) > 0
    ensures var p := Locate(t, base, h, b);
      Holds(t, h, p, k) && Reach(base, h, p) == b && UsedLen(t, base, h, b) == Exp2(k)
    decreases t
  {
    match t {
      case Allocated =>
        k := h;
      case Split(l, r) =>
        if b < base + Exp2(h - 1) {
          k := LocateHolds(l, base, h - 1, b);
        } else {
          k := LocateHolds(r, base + Exp2(h - 1), h - 1, b);
        }
    }
  }

  lemma {:induction false} HoldsInside(base: nat, h: nat, p: Path, t: Tree, end: nat, k: nat)
    requires Canonical(t, base, h, end) && Holds(t, h, p, k)
    ensures base <= Reach(base, h, p)
    ensures Reach(base, h, p) + Exp2(k) <= base + Exp2(h)
    ensures Reach(base, h, p) + Exp2(k) <= end
    decreases p
  {
    match p
    case Here =>
    case Left(q) => HoldsInside(base, h - 1, q, t.left, end, k);
    case Right(q) => HoldsInside(base + Exp2(h - 1), h - 1, q, t.right, end, k);
  }

  lemma {:induction false} UsedInside(t: Tree, base: nat, h: nat, end: nat, b: nat)
    requires Canonical(t, base, h, end) && UsedLen(t, base, h, b) > 0
    ensures base <= b && b + UsedLen(t, base, h, b) <= base + Exp2(h)
    ensures b + UsedLen(t, base, h, b) <= end
  {
    var k := LocateHolds(t, base, h, b);
    HoldsInside(base, h, Locate(t, base, h, b), t, end, k);
  }

  lemma {:induction false} RestoreCanonical(t: Tree, base: nat, h: nat, end: nat, p: Path, k: nat)
    requires Canonical(t, base, h, end) && Holds(t, h, p, k)
    ensures Canonical(Restore(t, p), base, h, end)
    decreases p
  {
    match p
    case Here =>
    case Left(q) => RestoreCanonical(t.left, base, h - 1, end, q, k);
    case Right(q) => RestoreCanonical(t.right, base + Exp2(h - 1), h - 1, end, q, k);
  }

  lemma {:induction false} RestoreTotal(t: Tree, h: nat, p: Path, k: nat)
    requires Holds(t, h, p, k)
    ensures FreeTotal(Restore(t, p), h) == FreeTotal(t, h) + Exp2(k)
    decreases p
  {
    match p
    case Here =>
    case Left(q) => RestoreTotal(t.left, h - 1, q, k);
    case Right(q) => RestoreTotal(t.right, h - 1, q, k);
  }

  lemma {:induction false} MergePages(l: Tree, r: Tree, base: nat, h: nat, x: nat)
    requires h > 0
    ensures PageFree(Merge(l, r), base, h, x) <==> PageFree(Split(l, r), base, h, x)
  {
  }

  lemma {:induction false} MergeUsed(l: Tree, r: Tree, base: nat, h: nat, x: nat)
    requires h > 0
    ensures UsedLen(Merge(l, r), base, h, x) == UsedLen(Split(l, r), base, h, x)
  {
  }

  // Exactly the pages of the block become free.
  lemma {:induction false} RestorePages(t: Tree, base: nat, h: nat, end: nat, p: Path, k: nat, x: nat)
    requires Canonical(t, base, h, end) && Holds(t, h, p, k)
    ensures PageFree(Restore(t, p), base, h, x)
       <==> PageFree(t, base, h, x) || Reach(base, h, p) <= x < Reach(base, h, p) + Exp2(k)
    decreases p
  {
    match p
    case Here =>
    case Left(q) =>
      var d := h - 1;
      HoldsInside(base, d, q, t.left, end, k);
      RestorePages(t.left, base, d, end, q, k, x);
      MergePages(Restore(t.left, q), t.right, base, h, x);
      LeftPages(t.left, Restore(t.left, q), t.right, base, h, x, Reach(base, d, q), Exp2(k));
    case Right(q) =>
      var d := h - 1;
      HoldsInside(base + Exp2(d), d, q, t.right, end, k);
      RestorePages(t.right, base + Exp2(d), d, end, q, k, x);
      MergePages(t.left, Restore(t.right, q), base, h, x);
      RightPages(t.left, t.right, Restore(t.right, q), base, h, x, Reach(base + Exp2(d), d, q), Exp2(k));
  }

  lemma {:induction false} LeftPages(l: Tree, l': Tree, r: Tree, base: nat, h: nat, x: nat, at: nat, len: nat)
    requires h > 0 && at + len <= base + Exp2(h - 1)
    requires PageFree(l', base, h - 1, x) <==> PageFree(l, base, h - 1, x) || at <= x < at + len
    ensures PageFree(Split(l', r), base, h, x) <==> PageFree(Split(l, r), base, h, x) || at <= x < at + len
  {
  }

  lemma {:induction false} RightPages(l: Tree, r: Tree, r': Tree, base: nat, h: nat, x: nat, at: nat, len: nat)
    requires h > 0 && base + Exp2(h - 1) <= at
    requires var mid := base + Exp2(h - 1);
      PageFree(r', mid, h - 1, x) <==> PageFree(r, mid, h - 1, x) || at <= x < at + len
    ensures PageFree(Split(l, r'), base, h, x) <==> PageFree(Split(l, r), base, h, x) || at <= x < at + len
  {
  }

  // Exactly one block is taken off those handed out.
  lemma {:induction false} RestoreUsed(t: Tree, base: nat, h: nat, end: nat, p: Path, k: nat, x: nat)
    requires Canonical(t, base, h, end) && Holds(t, h, p, k)
    ensures UsedLen(Restore(t, p), base, h, x)
         == if x == Reach(base, h, p) then 0 else UsedLen(t, base, h, x)
    decreases p
  {
    match p
    case Here =>
    case Left(q) =>
      HoldsInside(base, h - 1, q, t.left, end, k);
      RestoreUsed(t.left, base, h - 1, end, q, k, x);
      MergeUsed(Restore(t.left, q), t.right, base, h, x);
    case Right(q) =>
      HoldsInside(base + Exp2(h - 1), h - 1, q, t.right, end, k);
      RestoreUsed(t.right, base + Exp2(h - 1), h - 1, end, q, k, x);
      MergeUsed(t.left, Restore(t.right, q), base, h, x);
  }

  // What one matching free does to the whole tree.
  lemma {:induction false} ReleaseEffect(t: Tree, h: nat, end: nat, b: nat, x: nat)
    requires Canonical(t, 0, h, end) && UsedLen(t, 0, h, b) > 0
    ensures var t', n := Release(t, h, b), UsedLen(t, 0, h, b);
      && Canonical(t', 0, h, end)
      && FreeTotal(t', h) == FreeTotal(t, h) + n
      && (PageFree(t', 0, h, x) <==> PageFree(t, 0, h, x) || b <= x < b + n)
      && UsedLen(t', 0, h, x) == (if x == b then 0 else UsedLen(t, 0, h, x))
  {
    var p := Locate(t, 0, h, b);
    var k := LocateHolds(t, 0, h, b);
    RestoreCanonical(t, 0, h, end, p, k);
    RestoreTotal(t, h, p, k);
    RestorePages(t, 0, h, end, p, k, x);
    RestoreUsed(t, 0, h, end, p, k, x);
  }

  // ---------- The tree is determined by what is handed out ----------

  ghost predicate SameUsed(t: Tree, t': Tree, base: nat, h: nat) {
    forall b: nat :: UsedLen(t, base, h, b) == UsedLen(t', base, h, b)
  }

  ghost predicate Unused(t: Tree, base: nat, h: nat) {
    forall b: nat :: UsedLen(t, base, h, b) == 0
  }

  lemma {:induction false} UsedInLeft(l: Tree, r: Tree, base: nat, h: nat, end: nat, b: nat)
    requires Canonical(Split(l, r), base, h, end)
    ensures UsedLen(l, base, h - 1, b)
         == if b < base + Exp2(h - 1) then UsedLen(Split(l, r), base, h, b) else 0
  {
    if UsedLen(l, base, h - 1, b) > 0 {
      UsedInside(l, base, h - 1, end, b);
    }
  }

  lemma {:induction false} UsedInRight(l: Tree, r: Tree, base: nat, h: nat, end: nat, b: nat)
    requires Canonical(Split(l, r), base, h, end)
    ensures UsedLen(r, base + Exp2(h - 1), h - 1, b)
         == if b < base + Exp2(h - 1) then 0 else UsedLen(Split(l, r), base, h, b)
  {
    if UsedLen(r, base + Exp2(h - 1), h - 1, b) > 0 {
      UsedInside(r, base + Exp2(h - 1), h - 1, end, b);
    }
  }

  // A canonical tree inside the real area with nothing handed out is one block.
  lemma {:induction false} UnusedIsFree(t: Tree, base: nat, h: nat, end: nat)
    requires Canonical(t, base, h, end) && base + Exp2(h) <= end && Unused(t, base, h)
    ensures t.Free?
    decreases t
  {
    assert UsedLen(t, base, h, base) == 0;
    match t
    case Split(l, r) =>
      var mid, d := base + Exp2(h - 1), h - 1;
      forall b: nat ensures UsedLen(l, base, d, b) == 0 {
        UsedInLeft(l, r, base, h, end, b);
      }
      forall b: nat ensures UsedLen(r, mid, d, b) == 0 {
        UsedInRight(l, r, base, h, end, b);
      }
      UnusedIsFree(l, base, h - 1, end);
      UnusedIsFree(r, mid, h - 1, end);
    case _ =>
  }

  lemma {:induction false} SplitSameUsed(t: Tree, t': Tree, base: nat, h: nat, end: nat)
    requires Canonical(t, base, h, end) && Canonical(t', base, h, end)
    requires SameUsed(t, t', base, h) && t.Split? && t'.Split?
    ensures SameUsed(t.left, t'.left, base, h - 1)
    ensures SameUsed(t.right, t'.right, base + Exp2(h - 1), h - 1)
  {
    var mid, d := base + Exp2(h - 1), h - 1;
    forall b: nat ensures UsedLen(t.left, base, d, b) == UsedLen(t'.left, base, d, b) {
      UsedInLeft(t.left, t.right, base, h, end, b);
      UsedInLeft(t'.left, t'.right, base, h, end, b);
      assert UsedLen(t, base, h, b) == UsedLen(t', base, h, b);
    }
    forall b: nat ensures UsedLen(t.right, mid, d, b) == UsedLen(t'.right, mid, d, b) {
      UsedInRight(t.left, t.right, base, h, end, b);
      UsedInRight(t'.left, t'.right, base, h, end, b);
      assert UsedLen(t, base, h, b) == UsedLen(t', base, h, b);
    }
  }

  lemma {:induction false} CanonicalUnique(t: Tree, t': Tree, base: nat, h: nat, end: nat)
    requires Canonical(t, base, h, end) && Canonical(t', base, h, end)
    requires SameUsed(t, t', base, h)
    ensures t == t'
    decreases t
  {
    assert UsedLen(t, base, h, base) == UsedLen(t', base, h, base);
    if t.Split? && t'.Split? {
      SplitSameUsed(t, t', base, h, end);
      CanonicalUnique(t.left, t'.left, base, h - 1, end);
      CanonicalUnique(t.right, t'.right, base + Exp2(h - 1), h - 1, end);
    } else if t.Split? {
      WholeOrSplit(t, t', base, h, end);
    } else if t'.Split? {
      WholeOrSplit(t', t, base, h, end);
    }
  }

  // A split tree and an unsplit one cannot hand out the same blocks.
  lemma {:induction false} WholeOrSplit(t: Tree, t': Tree, base: nat, h: nat, end: nat)
    requires Canonical(t, base, h, end) && Canonical(t', base, h, end)
    requires SameUsed(t, t', base, h)
    ensures t.Split? ==> t'.Split?
  {
    assert UsedLen(t, base, h, base) == UsedLen(t', base, h, base);
    if t.Split? && t'.Free? {
      UnusedIsFree(t, base, h, end);
    } else if t.Split? && t'.Allocated? {
      UsedInside(t.left, base, h - 1, end, base);
    }
  }

  // ---------- The initial tree ----------

  function InitTree(base: nat, h: nat, end: nat): Tree
    decreases h, base, end
  {
    if end <= base then Absent
    else if base + Exp2(h) <= end || h == 0 then Free
    else Split(InitTree(base, h - 1, end), InitTree(base + Exp2(h - 1), h - 1, end))
  }

  function InitPages(base: nat, h: nat, end: nat): nat {
    if end <= base then 0 else if base + Exp2(h) <= end then Exp2(h) else end - base
  }

  lemma {:induction false} InitCanonical(base: nat, h: nat, end: nat)
    ensures Canonical(InitTree(base, h, end), base, h, end)
    ensures InitTree(base, h, end).Free? ==> base + Exp2(h) <= end
    decreases h
  {
    if base < end < base + Exp2(h) {
      InitCanonical(base, h - 1, end);
      InitCanonical(base + Exp2(h - 1), h - 1, end);
    }
  }

  lemma {:induction false} InitUnused(base: nat, h: nat, end: nat, b: nat)
    ensures UsedLen(InitTree(base, h, end), base, h, b) == 0
    decreases h
  {
    if base < end < base + Exp2(h) {
      InitUnused(base, h - 1, end, b);
      InitUnused(base + Exp2(h - 1), h - 1, end, b);
    }
  }

  lemma {:induction false} InitTotal(base: nat, h: nat, end: nat)
    ensures FreeTotal(InitTree(base, h, end), h) == InitPages(base, h, end)
    decreases h
  {
    if base < end < base + Exp2(h) {
      InitTotal(base, h - 1, end);
      InitTotal(base + Exp2(h - 1), h - 1, end);
    }
  }

  // The free blocks of the initial tree have distinct sizes, so or-ing them adds them.
  lemma {:induction false} InitRec(base: nat, h: nat, end: nat)
    ensures Rec(InitTree(base, h, end), h) == InitPages(base, h, end)
    decreases h
  {
    if base < end < base + Exp2(h) {
      InitRec(base, h - 1, end);
      InitRec(base + Exp2(h - 1), h - 1, end);
      if end > base + Exp2(h - 1) {
        OrDisjoint(h - 1, end - base - Exp2(h - 1));
      }
    }
  }

  // ---------- Aligned runs ----------

  ghost predicate FreeRun(t: Tree, base: nat, h: nat, b: nat, w: nat) {
    forall x: nat :: b <= x < b + w ==> PageFree(t, base, h, x)
  }

  // 2^k pages from b form an aligned block inside the node.
  ghost predicate AlignedIn(base: nat, h: nat, b: nat, k: nat) {
    && k <= h && base % Exp2(h) == 0 && b % Exp2(k) == 0
    && base <= b && b + Exp2(k) <= base + Exp2(h)
  }

  lemma {:induction false} HalfMultiple(b: nat, half: nat)
    requires half >= 1 && b % (half + half) == 0
    ensures b % half == 0
  {
    var m := b / (half + half);
    assert b == (half + half) * m;
    assert (half + half) * m == half * (m + m);
    ModOfMultiple(half, m + m);
  }

  lemma {:induction false} Coarser(b: nat, h: nat, k: nat)
    requires k <= h && b % Exp2(h) == 0
    ensures b % Exp2(k) == 0
    decreases h
  {
    if k < h {
      HalfMultiple(b, Exp2(h - 1));
      Coarser(b, h - 1, k);
    }
  }

  lemma {:induction false} MidAligned(base: nat, h: nat)
    requires h > 0 && base % Exp2(h) == 0
    ensures base % Exp2(h - 1) == 0 && (base + Exp2(h - 1)) % Exp2(h - 1) == 0
  {
    Coarser(base, h, h - 1);
    AddAligned(base, Exp2(h - 1), Exp2(h - 1));
  }

  // A block below the node's own size lies in one half.
  lemma {:induction false} AlignedChild(base: nat, h: nat, b: nat, k: nat)
    requires AlignedIn(base, h, b, k) && k < h
    ensures if b < base + Exp2(h - 1) then AlignedIn(base, h - 1, b, k)
            else AlignedIn(base + Exp2(h - 1), h - 1, b, k)
  {
    MidAligned(base, h);
    Coarser(base + Exp2(h - 1), h - 1, k);
    AlignedSide(base + Exp2(h - 1), b, Exp2(k));
  }

  lemma {:induction false} AlignedParent(base: nat, h: nat, b: nat, k: nat)
    requires h > 0 && base % Exp2(h) == 0
    requires AlignedIn(base, h - 1, b, k) || AlignedIn(base + Exp2(h - 1), h - 1, b, k)
    ensures AlignedIn(base, h, b, k)
  {
  }

  lemma {:induction false} RunInChild(l: Tree, r: Tree, base: nat, h: nat, b: nat, w: nat)
    requires h > 0 && FreeRun(Split(l, r), base, h, b, w)
    ensures b + w <= base + Exp2(h - 1) ==> FreeRun(l, base, h - 1, b, w)
    ensures base + Exp2(h - 1) <= b ==> FreeRun(r, base + Exp2(h - 1), h - 1, b, w)
  {
    var t, mid, d := Split(l, r), base + Exp2(h - 1), h - 1;
    if b + w <= mid {
      forall x: nat | b <= x < b + w ensures PageFree(l, base, d, x) {
        assert PageFree(t, base, h, x);
      }
    }
    if mid <= b {
      forall x: nat | b <= x < b + w ensures PageFree(r, mid, d, x) {
        assert PageFree(t, base, h, x);
      }
    }
  }

  lemma {:induction false} WholeNodeFree(t: Tree, base: nat, h: nat, end: nat)
    requires Canonical(t, base, h, end) && FreeRun(t, base, h, base, Exp2(h))
    ensures t.Free?
    decreases t
  {
    assert PageFree(t, base, h, base);
    match t
    case Split(l, r) =>
      var mid, d := base + Exp2(h - 1), h - 1;
      forall x: nat | base <= x < mid ensures PageFree(l, base, d, x) {
        assert PageFree(t, base, h, x);
      }
      forall x: nat | mid <= x < mid + Exp2(d) ensures PageFree(r, mid, d, x) {
        assert PageFree(t, base, h, x);
      }
      WholeNodeFree(l, base, h - 1, end);
      WholeNodeFree(r, mid, h - 1, end);
    case _ =>
  }

  // Any aligned free run lies inside one free block.
  lemma {:induction false} RunInBlock(t: Tree, base: nat, h: nat, end: nat, b: nat, k: nat)
      returns (head: nat, j: nat)
    requires Canonical(t, base, h, end) && AlignedIn(base, h, b, k)
    requires FreeRun(t, base, h, b, Exp2(k))
    ensures FreeLen(t, base, h, head) == Exp2(j) && AlignedIn(base, h, head, j)
    ensures head <= b && b + Exp2(k) <= head + Exp2(j)
    decreases t
  {
    assert PageFree(t, base, h, b);
    match t {
      case Free => head, j := base, h;
      case Split(l, r) =>
        if k == h {
          WholeNodeFree(t, base, h, end);
        }
        AlignedChild(base, h, b, k);
        RunInChild(l, r, base, h, b, Exp2(k));
        if b < base + Exp2(h - 1) {
          head, j := RunInBlock(l, base, h - 1, end, b, k);
        } else {
          head, j := RunInBlock(r, base + Exp2(h - 1), h - 1, end, b, k);
        }
        AlignedParent(base, h, head, j);
    }
  }

  // Every free block is a free run aligned to its length.
  lemma {:induction false} BlockIsRun(t: Tree, base: nat, h: nat, end: nat, b: nat) returns (k: nat)
    requires Canonical(t, base, h, end) && base % Exp2(h) == 0 && FreeLen(t, base, h, b) > 0
    ensures FreeLen(t, base, h, b) == Exp2(k) && AlignedIn(base, h, b, k)
    ensures FreeRun(t, base, h, b, Exp2(k))
    decreases t
  {
    match t {
      case Free =>
        k := h;
      case Split(l, r) =>
        MidAligned(base, h);
        if b < base + Exp2(h - 1) {
          k := BlockIsRun(l, base, h - 1, end, b);
          forall x: nat | b <= x < b + Exp2(k) ensures PageFree(t, base, h, x) {
            assert PageFree(l, base, h - 1, x);
          }
        } else {
          k := BlockIsRun(r, base + Exp2(h - 1), h - 1, end, b);
          var mid := base + Exp2(h - 1);
          forall x: nat | b <= x < b + Exp2(k) ensures PageFree(t, base, h, x) {
            assert PageFree(r, mid, h - 1, x);
          }
        }
        AlignedParent(base, h, b, k);
    }
  }

  // Two free blocks with a page in common are the same block.
  lemma {:induction false} BlocksApart(t: Tree, base: nat, h: nat, end: nat, b: nat, c: nat)
    requires Canonical(t, base, h, end) && base % Exp2(h) == 0
    requires FreeLen(t, base, h, b) > 0 && FreeLen(t, base, h, c) > 0
    requires c <= b < c + FreeLen(t, base, h, c)
    ensures b == c
    decreases t
  {
    match t
    case Split(l, r) =>
      MidAligned(base, h);
      if c < base + Exp2(h - 1) {
        var k := BlockIsRun(l, base, h - 1, end, c);
        BlocksApart(l, base, h - 1, end, b, c);
      } else {
        BlocksApart(r, base + Exp2(h - 1), h - 1, end, b, c);
      }
    case _ =>
  }

  // ---------- Free blocks are the maximal aligned free runs ----------

  ghost predicate MaximalRun(t: Tree, h: nat, b: nat, k: nat) {
    && AlignedIn(0, h, b, k) && FreeRun(t, 0, h, b, Exp2(k))
    && forall c: nat, j: nat ::
         (AlignedIn(0, h, c, j) && FreeRun(t, 0, h, c, Exp2(j)) && c <= b && b + Exp2(k) <= c + Exp2(j))
         ==> c == b && j == k
  }

  lemma {:induction false} FreeBlocksAreMaximal(t: Tree, h: nat, end: nat, b: nat, k: nat)
    requires Canonical(t, 0, h, end)
    ensures FreeLen(t, 0, h, b) == Exp2(k) <==> MaximalRun(t, h, b, k)
  {
    assert 0 % Exp2(h) == 0;
    if MaximalRun(t, h, b, k) {
      var head, j := RunInBlock(t, 0, h, end, b, k);
      var i := BlockIsRun(t, 0, h, end, head);
      Exp2Injective(i, j);
    }
    if FreeLen(t, 0, h, b) == Exp2(k) {
      var i := BlockIsRun(t, 0, h, end, b);
      Exp2Injective(i, k);
      forall c: nat, j: nat |
        AlignedIn(0, h, c, j) && FreeRun(t, 0, h, c, Exp2(j)) && c <= b && b + Exp2(k) <= c + Exp2(j)
        ensures c == b && j == k
      {
        var head, m := RunInBlock(t, 0, h, end, c, j);
        BlocksApart(t, 0, h, end, b, head);
        Exp2Injective(j, k);
      }
    }
  }

  // ---------- Completeness ----------

  lemma {:induction false} BlockRecorded(t: Tree, base: nat, h: nat, end: nat, b: nat)
    requires Canonical(t, base, h, end) && FreeLen(t, base, h, b) > 0
    ensures FreeLen(t, base, h, b) <= Rec(t, h)
    decreases t
  {
    match t
    case Split(l, r) =>
      OrAtLeast(Rec(l, h - 1), Rec(r, h - 1));
      if b < base + Exp2(h - 1) {
        BlockRecorded(l, base, h - 1, end, b);
      } else {
        BlockRecorded(r, base + Exp2(h - 1), h - 1, end, b);
      }
    case _ =>
  }

  lemma {:induction false} ReachAligned(t: Tree, base: nat, h: nat, p: Path, k: nat)
    requires Leads(t, h, p, k) && base % Exp2(h) == 0
    ensures AlignedIn(base, h, Reach(base, h, p), k)
    decreases p
  {
    match p
    case Here =>
    case Left(q) =>
      MidAligned(base, h);
      ReachAligned(if t.Split? then t.left else Free, base, h - 1, q, k);
    case Right(q) =>
      MidAligned(base, h);
      ReachAligned(if t.Split? then t.right else Free, base + Exp2(h - 1), h - 1, q, k);
  }

  // A request can be served exactly when some aligned run of that length is free.
  lemma {:induction false} Completeness(t: Tree, h: nat, end: nat, k: nat)
    requires Canonical(t, 0, h, end)
    ensures Exp2(k) <= Rec(t, h)
       <==> exists b: nat :: AlignedIn(0, h, b, k) && FreeRun(t, 0, h, b, Exp2(k))
  {
    assert 0 % Exp2(h) == 0;
    if Exp2(k) <= Rec(t, h) {
      var at := TakeAt(t, h, k);
      DescentLeads(t, 0, h, end, k);
      ReachAligned(t, 0, h, Descent(t, h, k), k);
      forall x: nat | at <= x < at + Exp2(k) ensures PageFree(t, 0, h, x) {
        TakeEffect(t, h, end, k, x);
      }
      assert FreeRun(t, 0, h, at, Exp2(k));
    }
    if b: nat :| AlignedIn(0, h, b, k) && FreeRun(t, 0, h, b, Exp2(k)) {
      var head, j := RunInBlock(t, 0, h, end, b, k);
      BlockRecorded(t, 0, h, end, head);
    }
  }

  // ---------- Exact fit ----------

  // The bit of a free block's length is set in every record above it.
  lemma {:induction false} ExactRecorded(t: Tree, base: nat, h: nat, end: nat, b: nat, k: nat)
    requires Canonical(t, base, h, end) && FreeLen(t, base, h, b) == Exp2(k)
    ensures Bit(Rec(t, h), k)
    decreases t
  {
    match t
    case Split(l, r) =>
      if b < base + Exp2(h - 1) {
        ExactRecorded(l, base, h - 1, end, b, k);
      } else {
        ExactRecorded(r, base + Exp2(h - 1), h - 1, end, b, k);
      }
      OrBit(Rec(l, h - 1), Rec(r, h - 1), k);
    case _ =>
      PowerBit(k, k);
  }

  // A path that splits nothing.
  predicate Exact(t: Tree, h: nat, p: Path, k: nat)
    decreases p, t, h, k
  {
    match p
    case Here => t.Free? && h == k
    case Left(q) => h > 0 && t.Split? && Exact(t.left, h - 1, q, k)
    case Right(q) => h > 0 && t.Split? && Exact(t.right, h - 1, q, k)
  }

  // With the bit of the request set in the record, the descent ends at a block
  // of exactly that length and splits nothing.
  lemma {:induction false} DescentExact(t: Tree, base: nat, h: nat, end: nat, k: nat)
    requires Canonical(t, base, h, end) && Bit(Rec(t, h), k)
    ensures Exact(t, h, Descent(t, h, k), k)
    decreases t
  {
    BitAtMost(Rec(t, h), k);
    FitsBelow(t, base, h, end, k);
    match t
    case Free =>
      PowerBit(h, k);
    case Split(l, r) =>
      OrBit(Rec(l, h - 1), Rec(r, h - 1), k);
      MaskBit(k, Rec(l, h - 1));
      MaskBit(k, Rec(r, h - 1));
      if Bit(Rec(l, h - 1), k) {
        DescentExact(l, base, h - 1, end, k);
      } else {
        DescentExact(r, base + Exp2(h - 1), h - 1, end, k);
      }
  }

  lemma {:induction false} ExactReach(t: Tree, base: nat, h: nat, p: Path, k: nat)
    requires Exact(t, h, p, k)
    ensures base <= Reach(base, h, p) < base + Exp2(h)
    ensures FreeLen(t, base, h, Reach(base, h, p)) == Exp2(k)
    decreases p
  {
    match p
    case Here =>
    case Left(q) => ExactReach(t.left, base, h - 1, q, k);
    case Right(q) => ExactReach(t.right, base + Exp2(h - 1), h - 1, q, k);
  }

  // A record is the bitwise or of the lengths of the free blocks beneath it:
  // bit k is set exactly when one of them has length 2^k.
  lemma {:induction false} RecordBits(t: Tree, base: nat, h: nat, end: nat, k: nat)
    requires Canonical(t, base, h, end)
    ensures Bit(Rec(t, h), k) <==> exists b: nat :: FreeLen(t, base, h, b) == Exp2(k)
  {
    if Bit(Rec(t, h), k) {
      DescentExact(t, base, h, end, k);
      ExactReach(t, base, h, Descent(t, h, k), k);
    }
    if b: nat :| FreeLen(t, base, h, b) == Exp2(k) {
      ExactRecorded(t, base, h, end, b, k);
    }
  }

  // ---------- Which block is chosen ----------

  // Of the free blocks of length 2^k the one with the least head, or, if there
  // is none, the one with the least head among the longer ones.
  ghost predicate LeastFit(t: Tree, base: nat, h: nat, k: nat, at: nat) {
    if exists b: nat :: FreeLen(t, base, h, b) == Exp2(k) then
      && FreeLen(t, base, h, at) == Exp2(k)
      && forall b: nat :: FreeLen(t, base, h, b) == Exp2(k) ==> at <= b
    else
      && FreeLen(t, base, h, at) > Exp2(k)
      && forall b: nat :: FreeLen(t, base, h, b) > Exp2(k) ==> at <= b
  }

  lemma {:induction false} ExactIsLeast(t: Tree, base: nat, h: nat, end: nat, k: nat, b: nat)
    requires Canonical(t, base, h, end) && FreeLen(t, base, h, b) == Exp2(k)
    ensures Reach(base, h, Descent(t, h, k)) <= b
    decreases t
  {
    ExactRecorded(t, base, h, end, b, k);
    BitAtMost(Rec(t, h), k);
    FitsBelow(t, base, h, end, k);
    match t
    case Free =>
      Exp2Injective(h, k);
    case Split(l, r) =>
      MaskBit(k, Rec(l, h - 1));
      MaskBit(k, Rec(r, h - 1));
      OrBit(Rec(l, h - 1), Rec(r, h - 1), k);
      if Bit(Rec(l, h - 1), k) {
        DescentExact(l, base, h - 1, end, k);
        ExactReach(l, base, h - 1, Descent(l, h - 1, k), k);
        if b < base + Exp2(h - 1) {
          ExactIsLeast(l, base, h - 1, end, k, b);
        }
      } else if b < base + Exp2(h - 1) {
        ExactRecorded(l, base, h - 1, end, b, k);
      } else {
        ExactIsLeast(r, base + Exp2(h - 1), h - 1, end, k, b);
      }
  }

  // Within a wholly free node the descent keeps to the left.
  lemma {:induction false} FreeReach(base: nat, h: nat, k: nat)
    ensures Reach(base, h, Descent(Free, h, k)) == base
    decreases h
  {
    if k < h {
      FreeReach(base, h - 1, k);
    }
  }

  lemma {:induction false} LongerIsLeast(t: Tree, base: nat, h: nat, end: nat, k: nat, b: nat)
    requires Fits(t, base, h, end, k) && !Bit(Rec(t, h), k)
    ensures var at := Reach(base, h, Descent(t, h, k));
      && base <= at < base + Exp2(h) && FreeLen(t, base, h, at) > Exp2(k)
      && (FreeLen(t, base, h, b) > Exp2(k) ==> at <= b)
    decreases t
  {
    FitsBelow(t, base, h, end, k);
    match t
    case Free =>
      PowerBit(h, k);
      Exp2Grows(k, h);
      FreeReach(base, h, k);
    case Split(l, r) =>
      var mid, d := base + Exp2(h - 1), h - 1;
      MaskBit(k, Rec(l, d));
      MaskBit(k, Rec(r, d));
      OrBit(Rec(l, d), Rec(r, d), k);
      if Exp2(k) <= Rec(l, d) {
        LongerIsLeast(l, base, d, end, k, b);
      } else {
        LongerIsLeast(r, mid, d, end, k, b);
        if b < mid && FreeLen(l, base, d, b) > 0 {
          BlockRecorded(l, base, d, end, b);
        }
      }
  }

  // Which block an allocation uses, whatever has been allocated and freed.
  lemma {:induction false} TakeIsLeastFit(t: Tree, h: nat, end: nat, k: nat)
    requires Fits(t, 0, h, end, k)
    ensures LeastFit(t, 0, h, k, TakeAt(t, h, k))
  {
    hide Descent;
    if Bit(Rec(t, h), k) {
      DescentExact(t, 0, h, end, k);
      ExactReach(t, 0, h, Descent(t, h, k), k);
      forall b: nat | FreeLen(t, 0, h, b) == Exp2(k) ensures TakeAt(t, h, k) <= b {
        ExactIsLeast(t, 0, h, end, k, b);
      }
    } else {
      forall b: nat ensures FreeLen(t, 0, h, b) != Exp2(k) {
        if FreeLen(t, 0, h, b) == Exp2(k) {
          ExactRecorded(t, 0, h, end, b, k);
        }
      }
      forall b: nat ensures FreeLen(t, 0, h, b) > Exp2(k) ==> TakeAt(t, h, k) <= b {
        LongerIsLeast(t, 0, h, end, k, b);
      }
      LongerIsLeast(t, 0, h, end, k, 0);
    }
  }

  lemma {:induction false} ExactCarve(t: Tree, base: nat, h: nat, p: Path, k: nat, c: nat)
    requires Exact(t, h, p, k)
    ensures FreeLen(Carve(t, p), base, h, c)
         == if c == Reach(base, h, p) then 0 else FreeLen(t, base, h, c)
    decreases p
  {
    match p
    case Here =>
    case Left(q) =>
      ExactReach(t.left, base, h - 1, q, k);
      ExactCarve(t.left, base, h - 1, q, k, c);
    case Right(q) =>
      ExactReach(t.right, base + Exp2(h - 1), h - 1, q, k);
      ExactCarve(t.right, base + Exp2(h - 1), h - 1, q, k, c);
  }

  // If some free block has exactly the requested length, one such block is
  // handed out and the other free blocks stay as they are.
  lemma {:induction false} ExactFitPreferred(t: Tree, h: nat, end: nat, k: nat, b: nat, c: nat)
    requires Canonical(t, 0, h, end) && FreeLen(t, 0, h, b) == Exp2(k)
    ensures var at, t' := TakeAt(t, h, k), Take(t, h, k);
      && Exp2(k) <= Rec(t, h)
      && FreeLen(t, 0, h, at) == Exp2(k)
      && FreeLen(t', 0, h, c) == (if c == at then 0 else FreeLen(t, 0, h, c))
  {
    ExactRecorded(t, 0, h, end, b, k);
    BitAtMost(Rec(t, h), k);
    DescentExact(t, 0, h, end, k);
    ExactReach(t, 0, h, Descent(t, h, k), k);
    ExactCarve(t, 0, h, Descent(t, h, k), k, c);
  }

  // ---------- Runs ----------

  // One call: allocate 2^k pages, or free the block handed out at page b.
  datatype Op = Alloc(k: nat) | Dealloc(b: nat)

  // A request that does not fit changes nothing; a free must match a block.
  predicate Legal(t: Tree, h: nat, op: Op) {
    op.Dealloc? ==> UsedLen(t, 0, h, op.b) > 0
  }

  function Step(t: Tree, h: nat, op: Op): Tree {
    match op
    case Alloc(k) => if Exp2(k) <= Rec(t, h) then Take(t, h, k) else t
    case Dealloc(b) => Release(t, h, b)
  }

  predicate LegalRun(t: Tree, h: nat, ops: seq<Op>)
    decreases |ops|
  {
    ops == [] || (Legal(t, h, ops[0]) && LegalRun(Step(t, h, ops[0]), h, ops[1..]))
  }

  function Run(t: Tree, h: nat, ops: seq<Op>): Tree
    decreases |ops|
  {
    if ops == [] then t else Run(Step(t, h, ops[0]), h, ops[1..])
  }

  lemma {:induction false} RunCanonical(t: Tree, h: nat, end: nat, ops: seq<Op>)
    requires Canonical(t, 0, h, end) && LegalRun(t, h, ops)
    ensures Canonical(Run(t, h, ops), 0, h, end)
    decreases |ops|
  {
    if ops != [] {
      match ops[0] {
        case Alloc(k) =>
          if Exp2(k) <= Rec(t, h) {
            TakeEffect(t, h, end, k, 0);
          }
        case Dealloc(b) =>
          ReleaseEffect(t, h, end, b, b);
      }
      RunCanonical(Step(t, h, ops[0]), h, end, ops[1..]);
    }
  }

  // Two runs from the initial state that leave the same blocks handed out end
  // in the same state, whatever they did on the way.
  lemma {:induction false} OrderIndependent(h: nat, end: nat, ops: seq<Op>, ops': seq<Op>)
    requires LegalRun(InitTree(0, h, end), h, ops) && LegalRun(InitTree(0, h, end), h, ops')
    requires SameUsed(Run(InitTree(0, h, end), h, ops), Run(InitTree(0, h, end), h, ops'), 0, h)
    ensures Run(InitTree(0, h, end), h, ops) == Run(InitTree(0, h, end), h, ops')
  {
    InitCanonical(0, h, end);
    RunCanonical(InitTree(0, h, end), h, end, ops);
    RunCanonical(InitTree(0, h, end), h, end, ops');
    CanonicalUnique(Run(InitTree(0, h, end), h, ops), Run(InitTree(0, h, end), h, ops'), 0, h, end);
  }

  // Freeing everything restores the initial decomposition.
  lemma {:induction false} AllFreedIsInitial(h: nat, end: nat, ops: seq<Op>)
    requires LegalRun(InitTree(0, h, end), h, ops)
    requires Unused(Run(InitTree(0, h, end), h, ops), 0, h)
    ensures Run(InitTree(0, h, end), h, ops) == InitTree(0, h, end)
  {
    forall b: nat
      ensures UsedLen(Run(InitTree(0, h, end), h, ops), 0, h, b)
           == UsedLen(InitTree(0, h, end), 0, h, b)
    {
      InitUnused(0, h, end, b);
    }
    OrderIndependent(h, end, ops, []);
  }

  // Freeing what was just allocated restores the state.
  lemma {:induction false} AllocThenFree(t: Tree, h: nat, end: nat, k: nat)
    requires Fits(t, 0, h, end, k)
    ensures Release(Take(t, h, k), h, TakeAt(t, h, k)) == t
  {
    var t', at := Take(t, h, k), TakeAt(t, h, k);
    TakeEffect(t, h, end, k, at);
    ReleaseEffect(t', h, end, at, at);
    forall b: nat ensures UsedLen(Release(t', h, at), 0, h, b) == UsedLen(t, 0, h, b) {
      TakeEffect(t, h, end, k, b);
      ReleaseEffect(t', h, end, at, b);
    }
    CanonicalUnique(Release(t', h, at), t, 0, h, end);
  }
}
