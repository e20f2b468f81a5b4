// The steps of the loops of lab2/kern/mm/buddy.c: what each keeps, on the
// contents of the record array, the properties and the free list.

module BuddySteps {
  import opened Bits
  import opened BuddyGeometry
  import opened BuddyTree
  import opened BuddyRep
  import opened Lists

  // ---------- Building the initial tree ----------

  lemma {:induction false} SizingHeight(n: nat, h: nat)
    requires 2 <= n < 0x1_0000_0000 && Sizing(n).full == Exp2(h)
    ensures Exp2(h) + Exp2(h) <= MACRO_RANGE
  {
    var _ := SizingBounds(n);
    Exp2Large();
    if h > 32 {
      Exp2Grows(32, h);
    } else if h < 32 {
      Exp2Grows(h, 32);
    }
  }

  lemma {:induction false} EmptyListed(prop: seq<nat>, height: nat)
    ensures Listed([], prop, Absent, height)
  {
  }

  // The loop invariant of buddy_init_memmap: in the hole of c the initial tree
  // t is still to be marked, around it everything is in place.
  ghost predicate BuildInv(rec: seq<nat>, prop: seq<nat>, list: seq<nat>, c: Ctx, h: nat, height: nat, end: nat) {
    && Depth(c) + h == height && Base(c, h) < end && end == |prop|
    && BuildRec(rec, c, InitTree(Base(c, h), h, end), h)
    && Plug(c, InitTree(Base(c, h), h, end)) == InitTree(0, height, end)
    && Listed(list, prop, Plug(c, Absent), height)
  }

  ghost predicate BuildRec(rec: seq<nat>, c: Ctx, t: Tree, h: nat) {
    && Index(c) < |rec| && rec[Index(c)] == Rec(t, h)
    && RepCtx(rec, c, h) && RepWay(rec, c, t, h)
  }

  lemma {:induction false} BuildStart(rec: seq<nat>, prop: seq<nat>, height: nat, end: nat)
    requires 0 < end == |prop| && 1 < |rec| && rec[1] == end && end <= Exp2(height)
    ensures BuildInv(rec, prop, [], Root, height, height, end)
  {
    EmptyListed(prop, height);
    InitRec(0, height, end);
  }

  // rec after writing two neighbouring entries.
  function Marked(rec: seq<nat>, left: nat, x: nat, y: nat): (r: seq<nat>)
    requires left + 1 < |rec|
  {
    var half: seq<nat> := rec[left := x];
    half[left + 1 := y]
  }

  lemma {:induction false} BelowChildren(i: nat)
    requires i >= 1
    ensures Below(i, i) && Below(i, LeftChild(i)) && Below(i, RightChild(i))
  {
    assert Parent(LeftChild(i)) == i && Parent(RightChild(i)) == i;
  }

  lemma {:induction false} MarkedCtx(rec: seq<nat>, c: Ctx, h: nat, x: nat, y: nat)
    requires RightChild(Index(c)) < |rec| && RepCtx(rec, c, h)
    ensures RepCtx(Marked(rec, LeftChild(Index(c)), x, y), c, h)
  {
    var left := LeftChild(Index(c));
    var half: seq<nat> := rec[left := x];
    BelowChildren(Index(c));
    CtxFrame(rec, c, h, left, x);
    CtxFrame(half, c, h, left + 1, y);
  }

  lemma {:induction false} MarkedWay(rec: seq<nat>, c: Ctx, t: Tree, h: nat, x: nat, y: nat)
    requires RightChild(Index(c)) < |rec| && RepWay(rec, c, t, h)
    ensures RepWay(Marked(rec, LeftChild(Index(c)), x, y), c, t, h)
  {
    var left := LeftChild(Index(c));
    var half: seq<nat> := rec[left := x];
    WayFrame(rec, c, t, h, left, x);
    WayFrame(half, c, t, h, left + 1, y);
  }

  lemma {:induction false} InitSplit(base: nat, h: nat, end: nat)
    requires h > 0 && base < end < base + Exp2(h)
    ensures InitTree(base, h, end)
         == Split(InitTree(base, h - 1, end), InitTree(base + Exp2(h - 1), h - 1, end))
    ensures base + Exp2(h - 1) <= end ==> InitTree(base, h - 1, end) == Free
    ensures end <= base + Exp2(h - 1) ==> InitTree(base + Exp2(h - 1), h - 1, end) == Absent
    ensures Rec(InitTree(base, h, end), h) == end - base
  {
    InitRec(base, h, end);
  }

  lemma {:induction false} EnterRight(rec: seq<nat>, c: Ctx, l: Tree, r: Tree, h: nat, x: nat, y: nat)
    requires BuildRec(rec, c, Split(l, r), h + 1) && RightChild(Index(c)) < |rec|
    requires x == Rec(l, h) && y == Rec(r, h) && !l.Split?
    ensures BuildRec(Marked(rec, LeftChild(Index(c)), x, y), InRight(c, l), r, h)
  {
    MarkedCtx(rec, c, h + 1, x, y);
    MarkedWay(rec, c, Split(l, r), h + 1, x, y);
  }

  lemma {:induction false} EnterLeft(rec: seq<nat>, c: Ctx, l: Tree, r: Tree, h: nat, x: nat, y: nat)
    requires BuildRec(rec, c, Split(l, r), h + 1) && RightChild(Index(c)) < |rec|
    requires x == Rec(l, h) && y == Rec(r, h) && !r.Split?
    ensures BuildRec(Marked(rec, LeftChild(Index(c)), x, y), InLeft(c, r), l, h)
  {
    MarkedCtx(rec, c, h + 1, x, y);
    MarkedWay(rec, c, Split(l, r), h + 1, x, y);
  }

  lemma {:induction false} BuildRightRec(rec: seq<nat>, c: Ctx, h: nat, end: nat, base: nat, half: nat, rest: nat)
    requires h > 0 && base == Base(c, h) && half == Exp2(h - 1) && base + half + rest == end && 0 < rest < half
    requires BuildRec(rec, c, InitTree(base, h, end), h) && RightChild(Index(c)) < |rec|
    ensures InitTree(base, h, end) == Split(Free, InitTree(base + half, h - 1, end))
    ensures BuildRec(Marked(rec, LeftChild(Index(c)), half, rest), InRight(c, Free),
                     InitTree(base + half, h - 1, end), h - 1)
  {
    hide BuildRec, InitTree;
    InitSplit(base, h, end);
    InitRec(base + half, h - 1, end);
    EnterRight(rec, c, Free, InitTree(base + half, h - 1, end), h - 1, half, rest);
  }

  lemma {:induction false} BuildLeftRec(rec: seq<nat>, c: Ctx, h: nat, end: nat, base: nat, rest: nat)
    requires h > 0 && base == Base(c, h) && base + rest == end && 0 < rest <= Exp2(h - 1)
    requires BuildRec(rec, c, InitTree(base, h, end), h) && RightChild(Index(c)) < |rec|
    ensures InitTree(base, h, end) == Split(InitTree(base, h - 1, end), Absent)
    ensures BuildRec(Marked(rec, LeftChild(Index(c)), rest, 0), InLeft(c, Absent),
                     InitTree(base, h - 1, end), h - 1)
  {
    InitSplit(base, h, end);
    InitRec(base, h - 1, end);
    EnterLeft(rec, c, InitTree(base, h - 1, end), Absent, h - 1, rest, 0);
  }

  lemma {:induction false} HeadOnLeft(prop: seq<nat>, list: seq<nat>, c: Ctx, h: nat, height: nat)
    requires Depth(c) + h == height && h > 0 && Base(c, h) < |prop|
    requires Listed(list, prop, Plug(c, Absent), height)
    ensures Listed([Base(c, h)] + list, prop[Base(c, h) := Exp2(h - 1)], Plug(InRight(c, Free), Absent), height)
  {
    HeadAppears(c, Absent, Split(Free, Absent), h, height, Base(c, h), Exp2(h - 1), list, prop);
  }

  lemma {:induction false} BuildRightStep(rec: seq<nat>, prop: seq<nat>, list: seq<nat>, c: Ctx, h: nat, height: nat,
                                          end: nat, base: nat, half: nat, rest: nat)
    requires h > 0 && base == Base(c, h) && half == Exp2(h - 1) && base + half + rest == end && 0 < rest < half
    requires BuildInv(rec, prop, list, c, h, height, end) && RightChild(Index(c)) < |rec|
    ensures BuildInv(Marked(rec, LeftChild(Index(c)), half, rest), prop[base := half], [base] + list,
                     InRight(c, Free), h - 1, height, end)
    ensures rest == InitPages(Base(InRight(c, Free), h - 1), h - 1, end)
  {
    hide BuildRec, InitTree, Listed;
    BuildRightRec(rec, c, h, end, base, half, rest);
    HeadOnLeft(prop, list, c, h, height);
  }

  lemma {:induction false} NoHeads(c: Ctx, h: nat, height: nat, prop: seq<nat>, list: seq<nat>)
    requires Depth(c) + h == height && h > 0
    requires Listed(list, prop, Plug(c, Absent), height)
    ensures Listed(list, prop, Plug(InLeft(c, Absent), Absent), height)
  {
    PlugSet(c, Absent, Split(Absent, Absent), h, height, Base(c, h), 0);
    PlugInside(c, Absent, h, height, Base(c, h));
  }

  // ---------- Going down to allocate ----------

  // The loop invariant of the descent for 2^k pages in tree t: the node sub in
  // the hole of c fits the request, and serving it there serves it in t.
  ghost predicate AllocInv(rec: seq<nat>, prop: seq<nat>, list: seq<nat>, c: Ctx, sub: Tree, h: nat,
                           k: nat, t: Tree, height: nat, end: nat) {
    && Depth(c) + h == height && end == |prop|
    && Rep(rec, Index(c), sub, h) && RepCtx(rec, c, h)
    && Fits(sub, Base(c, h), h, end, k)
    && Listed(list, prop, Plug(c, sub), height)
    && SameTake(c, sub, h, k, t, height)
  }

  ghost predicate SameTake(c: Ctx, sub: Tree, h: nat, k: nat, t: Tree, height: nat) {
    && Plug(c, Take(sub, h, k)) == Take(t, height, k)
    && Reach(Base(c, h), h, Descent(sub, h, k)) == TakeAt(t, height, k)
  }

  lemma {:induction false} StepTake(c: Ctx, l: Tree, r: Tree, d: nat, k: nat, t: Tree, height: nat)
    requires SameTake(c, Split(l, r), d + 1, k, t, height) && d >= k
    ensures if GoLeft(l, r, d, k) then SameTake(InLeft(c, r), l, d, k, t, height)
            else SameTake(InRight(c, l), r, d, k, t, height)
  {
    if GoLeft(l, r, d, k) {
      assert Take(Split(l, r), d + 1, k) == Split(Take(l, d, k), r);
    } else {
      assert Take(Split(l, r), d + 1, k) == Split(l, Take(r, d, k));
    }
  }

  lemma {:induction false} StepRep(rec: seq<nat>, c: Ctx, l: Tree, r: Tree, d: nat)
    requires Rep(rec, Index(c), Split(l, r), d + 1) && RepCtx(rec, c, d + 1)
    ensures Rep(rec, LeftChild(Index(c)), l, d) && RepCtx(rec, InLeft(c, r), d)
    ensures Rep(rec, RightChild(Index(c)), r, d) && RepCtx(rec, InRight(c, l), d)
  {
  }

  lemma {:induction false} GoDown(rec: seq<nat>, prop: seq<nat>, list: seq<nat>, c: Ctx, l: Tree, r: Tree, h: nat,
                                  k: nat, t: Tree, height: nat, end: nat)
    requires AllocInv(rec, prop, list, c, Split(l, r), h, k, t, height, end) && h > k
    ensures if GoLeft(l, r, h - 1, k)
            then AllocInv(rec, prop, list, InLeft(c, r), l, h - 1, k, t, height, end)
            else AllocInv(rec, prop, list, InRight(c, l), r, h - 1, k, t, height, end)
  {
    hide Rep, RepCtx, Listed, SameTake, Fits;
    var d := h - 1;
    FitsBelow(Split(l, r), Base(c, h), h, end, k);
    StepRep(rec, c, l, r, d);
    StepTake(c, l, r, d, k, t, height);
    if GoLeft(l, r, d, k) {
      assert AllocInv(rec, prop, list, InLeft(c, r), l, d, k, t, height, end);
    } else {
      assert AllocInv(rec, prop, list, InRight(c, l), r, d, k, t, height, end);
    }
  }

  // What splitting the free node in the hole does to list and properties.
  lemma {:induction false} SplitList(c: Ctx, h: nat, height: nat, prop: seq<nat>, list: seq<nat>,
                                     begin: nat, half: nat, mid: nat)
    requires Depth(c) + h == height && h > 0 && begin == Base(c, h) && half == Exp2(h - 1) && mid == begin + half
    requires Listed(list, prop, Plug(c, Free), height) && mid < |prop|
    ensures begin in list && prop[begin] == half + half
    ensures var prop': seq<nat> := prop[begin := half];
      Listed([mid] + ([begin] + Del(list, begin)), prop'[mid := half], Plug(c, Split(Free, Free)), height)
  {
    var prop': seq<nat> := prop[begin := half];
    PlugInside(c, Free, h, height, begin);
    HeadLeaves(c, Free, Allocated, h, height, begin, list, prop);
    HeadAppears(c, Allocated, Split(Free, Allocated), h, height, begin, half, Del(list, begin), prop);
    HeadAppears(c, Split(Free, Allocated), Split(Free, Free), h, height, mid, half, [begin] + Del(list, begin), prop');
  }

  lemma {:induction false} SplitRec(rec: seq<nat>, c: Ctx, h: nat, half: nat)
    requires RepCtx(rec, c, h) && RightChild(Index(c)) < |rec| && h > 0 && half == Exp2(h - 1)
    ensures var rec' := Marked(rec, LeftChild(Index(c)), half, half);
      RepCtx(rec', InLeft(c, Free), h - 1) && Rep(rec', LeftChild(Index(c)), Free, h - 1)
  {
    MarkedCtx(rec, c, h, half, half);
  }

  lemma {:induction false} SplitDown(c: Ctx, h: nat, k: nat, t: Tree, height: nat, end: nat)
    requires SameTake(c, Free, h, k, t, height) && Fits(Free, Base(c, h), h, end, k) && h > k
    ensures SameTake(InLeft(c, Free), Free, h - 1, k, t, height)
    ensures Fits(Free, Base(InLeft(c, Free), h - 1), h - 1, end, k)
  {
    FitsBelow(Free, Base(c, h), h, end, k);
  }

  // At the end of the descent the node is free and has the requested length.
  lemma {:induction false} DescentEnds(c: Ctx, sub: Tree, h: nat, k: nat, t: Tree, height: nat, end: nat)
    requires Fits(sub, Base(c, h), h, end, k) && Exp2(h) <= Exp2(k) && SameTake(c, sub, h, k, t, height)
    ensures h == k && sub == Free
    ensures Plug(c, Allocated) == Take(t, height, k) && Base(c, h) == TakeAt(t, height, k)
  {
    FitsBelow(sub, Base(c, h), h, end, k);
    if k < h {
      Exp2Grows(k, h);
    }
  }

  // ---------- Going up again ----------

  // Node sub sits in the hole of c; the records above are to be redone.
  ghost predicate UpInv(rec: seq<nat>, c: Ctx, sub: Tree, h: nat, t: Tree) {
    Rep(rec, Index(c), sub, h) && RepCtx(rec, c, h) && Plug(c, sub) == t
  }

  function Beside(c: Ctx, sub: Tree): Tree
    requires !c.Root?
  {
    if c.InLeft? then Split(sub, c.right) else Split(c.left, sub)
  }

  lemma {:induction false} UpStep(rec: seq<nat>, c: Ctx, sub: Tree, h: nat)
    requires Rep(rec, Index(c), sub, h) && RepCtx(rec, c, h) && !c.Root?
    ensures Index(c.up) < |rec| && LeftChild(Index(c.up)) < |rec| && RightChild(Index(c.up)) < |rec|
    ensures var u := Index(c.up);
      var rec': seq<nat> := rec[u := Or(rec[LeftChild(u)], rec[RightChild(u)])];
      Rep(rec', u, Beside(c, sub), h + 1) && RepCtx(rec', c.up, h + 1)
  {
    var u := Index(c.up);
    var v := Or(rec[LeftChild(u)], rec[RightChild(u)]);
    JoinUp(rec, u, Beside(c, sub).left, Beside(c, sub).right, h);
    BelowChildren(u);
    CtxFrame(rec, c.up, h + 1, u, v);
  }

  // At the root the whole tree is recorded.
  lemma {:induction false} UpEnds(rec: seq<nat>, c: Ctx, sub: Tree, h: nat, height: nat, t: Tree)
    requires UpInv(rec, c, sub, h, t) && Depth(c) + h == height && Index(c) == 1
    ensures Rep(rec, 1, t, height)
  {
  }

  // ---------- Merging free neighbours ----------

  // The loop invariant of buddy_free_pages: folding sub into c gives t.
  ghost predicate FoldInv(rec: seq<nat>, prop: seq<nat>, list: seq<nat>, c: Ctx, sub: Tree, h: nat,
                          t: Tree, height: nat, end: nat) {
    && Depth(c) + h == height && end == |prop|
    && Rep(rec, Index(c), sub, h) && RepCtx(rec, c, h)
    && (sub.Free? || sub.Split?)
    && Canonical(sub, Base(c, h), h, end) && CanonicalCtx(c, h, end)
    && Listed(list, prop, Plug(c, sub), height)
    && Fold(c, sub) == t
  }

  lemma {:induction false} FoldEnds(rec: seq<nat>, prop: seq<nat>, list: seq<nat>, c: Ctx, sub: Tree, h: nat,
                                    t: Tree, height: nat, end: nat)
    requires FoldInv(rec, prop, list, c, sub, h, t, height, end) && Index(c) == 1
    ensures Rep(rec, 1, t, height) && Listed(list, prop, t, height)
  {
  }

  // Both children recorded as wholly free.
  lemma {:induction false} EmptyMeansFree(rec: seq<nat>, c: Ctx, sub: Tree, h: nat, end: nat)
    requires Rep(rec, Index(c), sub, h) && RepCtx(rec, c, h) && !c.Root?
    requires Canonical(sub, Base(c, h), h, end) && CanonicalCtx(c, h, end)
    ensures LeftChild(Index(c.up)) < |rec| && RightChild(Index(c.up)) < |rec|
    ensures var u := Index(c.up);
      rec[LeftChild(u)] == Exp2(h) && rec[RightChild(u)] == Exp2(h)
      <==> Beside(c, sub) == Split(Free, Free)
  {
    RecBound(sub, Base(c, h), h, end);
    if c.InLeft? {
      RecBound(c.right, Base(c.up, h + 1) + Exp2(h), h, end);
    } else {
      RecBound(c.left, Base(c.up, h + 1), h, end);
    }
  }

  lemma {:induction false} BesideCanonical(c: Ctx, sub: Tree, h: nat, end: nat)
    requires !c.Root? && Canonical(sub, Base(c, h), h, end) && CanonicalCtx(c, h, end)
    requires Base(c.up, h + 1) < end
    ensures Beside(c, sub) != Split(Free, Free) ==> Canonical(Beside(c, sub), Base(c.up, h + 1), h + 1, end)
    ensures Beside(c, sub) == Split(Free, Free) ==> Canonical(Free, Base(c.up, h + 1), h + 1, end)
    ensures CanonicalCtx(c.up, h + 1, end)
  {
  }

  // The neighbours' heads give way to the head of the merged block.
  lemma {:induction false} MergeList(u: Ctx, h: nat, height: nat, prop: seq<nat>, list: seq<nat>,
                                     lbegin: nat, rbegin: nat, len: nat)
    requires Depth(u) + h == height && h > 0
    requires lbegin == Base(u, h) && rbegin == lbegin + Exp2(h - 1) && len == Exp2(h)
    requires Listed(list, prop, Plug(u, Split(Free, Free)), height)
    ensures lbegin in list && rbegin in Del(list, lbegin) && lbegin < |prop|
    ensures Listed([lbegin] + Del(Del(list, lbegin), rbegin), prop[lbegin := len], Plug(u, Free), height)
  {
    HeadLeaves(u, Split(Free, Free), Split(Allocated, Free), h, height, lbegin, list, prop);
    HeadLeaves(u, Split(Allocated, Free), Split(Allocated, Allocated), h, height, rbegin, Del(list, lbegin), prop);
    var rest := Del(Del(list, lbegin), rbegin);
    HeadAppears(u, Split(Allocated, Allocated), Free, h, height, lbegin, len, rest, prop);
  }

  // Records and list after a merge.
  lemma {:induction false} Merged(rec: seq<nat>, prop: seq<nat>, list: seq<nat>, u: Ctx, h: nat, height: nat,
                                  lbegin: nat, rbegin: nat, len: nat)
    requires Depth(u) + h == height && h > 0
    requires lbegin == Base(u, h) && rbegin == lbegin + Exp2(h - 1) && len == Exp2(h)
    requires Index(u) < |rec| && RepCtx(rec, u, h)
    requires Listed(list, prop, Plug(u, Split(Free, Free)), height)
    ensures lbegin in list && rbegin in Del(list, lbegin) && lbegin < |prop|
    ensures RepCtx(rec[Index(u) := len], u, h) && Rep(rec[Index(u) := len], Index(u), Free, h)
    ensures Listed([lbegin] + Del(Del(list, lbegin), rbegin), prop[lbegin := len], Plug(u, Free), height)
  {
    MergeList(u, h, height, prop, list, lbegin, rbegin, len);
    BelowChildren(Index(u));
    CtxFrame(rec, u, h, Index(u), len);
  }

  // ---------- The block to free ----------

  ghost predicate Spot(rec: seq<nat>, c: Ctx, h: nat, tree: Tree, height: nat, end: nat, base: nat, t: Tree) {
    && Depth(c) + h == height && Base(c, h) == base && base + Exp2(h) <= end
    && RepCtx(rec, c, h) && CanonicalCtx(c, h, end)
    && Plug(c, Allocated) == tree && Fold(c, Free) == t
  }

  // Marking that block free and listing it starts the folding.
  lemma {:induction false} FoldStart(rec: seq<nat>, prop: seq<nat>, list: seq<nat>, c: Ctx, h: nat, tree: Tree,
                                     height: nat, end: nat, base: nat, t: Tree)
    requires Spot(rec, c, h, tree, height, end, base, t) && end == |prop|
    requires Index(c) < |rec| && Listed(list, prop, tree, height)
    ensures base < |prop|
    ensures FoldInv(rec[Index(c) := Exp2(h)], prop[base := Exp2(h)], [base] + list, c, Free, h, t, height, end)
  {
    BelowChildren(Index(c));
    CtxFrame(rec, c, h, Index(c), Exp2(h));
    HeadAppears(c, Allocated, Free, h, height, base, Exp2(h), list, prop);
  }

  lemma {:induction false} FreeSpot(rec: seq<nat>, tree: Tree, height: nat, end: nat, base: nat)
      returns (c: Ctx, h: nat)
    requires Rep(rec, 1, tree, height) && Canonical(tree, 0, height, end) && UsedLen(tree, 0, height, base) > 0
    ensures Spot(rec, c, h, tree, height, end, base, Release(tree, height, base))
    ensures UsedLen(tree, 0, height, base) == Exp2(h)
  {
    var p := Locate(tree, 0, height, base);
    h := LocateHolds(tree, 0, height, base);
    c := Walk(Root, tree, p);
    WalkAt(Root, tree, height, p, h);
    WalkRep(rec, Root, tree, height, p, h);
    WalkCanonical(Root, tree, height, end, p, h);
    WalkFold(Root, tree, height, p, h);
    UsedInside(tree, 0, height, end, base);
  }

  lemma {:induction false} RequestLength(n: nat)
    requires 1 <= n < SIZE_RANGE && (n <= SIZE_HALF || PowerRemainder(n) == 0)
    ensures n < MACRO_RANGE ==> PowerRoundUp(n) == Exp2(CeilLog(n))
    ensures PowerRoundUp(n) >= n
  {
    RoundUpBelow(n);
    if n < MACRO_RANGE {
      RoundingCorrect(n);
    }
  }

  // A canonical child inside the real area keeps its parent inside it.
  lemma {:induction false} BesideInside(c: Ctx, sub: Tree, h: nat, end: nat)
    requires !c.Root? && Canonical(sub, Base(c, h), h, end) && (sub.Free? || sub.Split?)
    ensures Base(c.up, h + 1) < end
  {
  }

  lemma {:induction false} FoldMerged(rec: seq<nat>, prop: seq<nat>, list: seq<nat>, c: Ctx, sub: Tree, h: nat,
                                      t: Tree, height: nat, end: nat)
    requires !c.Root? && Beside(c, sub) == Split(Free, Free) && Depth(c) + h == height && end == |prop|
    requires Canonical(sub, Base(c, h), h, end) && CanonicalCtx(c, h, end) && Fold(c, sub) == t
    requires Rep(rec, Index(c.up), Free, h + 1) && RepCtx(rec, c.up, h + 1)
    requires Listed(list, prop, Plug(c.up, Free), height)
    ensures FoldInv(rec, prop, list, c.up, Free, h + 1, t, height, end)
  {
    BesideInside(c, sub, h, end);
    BesideCanonical(c, sub, h, end);
  }

  lemma {:induction false} FoldJoined(rec: seq<nat>, prop: seq<nat>, list: seq<nat>, c: Ctx, sub: Tree, h: nat,
                                      t: Tree, height: nat, end: nat)
    requires !c.Root? && Beside(c, sub) != Split(Free, Free) && Depth(c) + h == height && end == |prop|
    requires (sub.Free? || sub.Split?)
    requires Canonical(sub, Base(c, h), h, end) && CanonicalCtx(c, h, end) && Fold(c, sub) == t
    requires Rep(rec, Index(c.up), Beside(c, sub), h + 1) && RepCtx(rec, c.up, h + 1)
    requires Listed(list, prop, Plug(c, sub), height)
    ensures FoldInv(rec, prop, list, c.up, Beside(c, sub), h + 1, t, height, end)
  {
    BesideInside(c, sub, h, end);
    BesideCanonical(c, sub, h, end);
  }
}
