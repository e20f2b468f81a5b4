// How the record array, the free list and the page properties of
// lab2/kern/mm/buddy.c stand for a tree of blocks.

module BuddyRep {
  import opened Bits
  import opened BuddyGeometry
  import opened BuddyTree
  import opened Lists

  // ---------- The record array ----------

  // Entries below a free, allocated or absent node are stale: nothing is asked
  // of them.
  ghost predicate Rep(rec: seq<nat>, i: nat, t: Tree, h: nat)
    decreases t, rec, i, h
  {
    && i < |rec| && rec[i] == Rec(t, h)
    && (t.Split? ==>
          && h > 0
          && Rep(rec, LeftChild(i), t.left, h - 1)
          && Rep(rec, RightChild(i), t.right, h - 1))
  }

  lemma {:induction false} RootRecord(rec: seq<nat>, t: Tree, height: nat)
    requires Rep(rec, 1, t, height)
    ensures 1 < |rec| && rec[1] == Rec(t, height)
  {
  }

  // The rest of the tree around a node.
  datatype Ctx = Root | InLeft(up: Ctx, right: Tree) | InRight(up: Ctx, left: Tree)

  function Plug(c: Ctx, t: Tree): Tree {
    match c
    case Root => t
    case InLeft(u, r) => Plug(u, Split(t, r))
    case InRight(u, l) => Plug(u, Split(l, t))
  }

  // Putting a node back, merging free neighbours on the way up.
  function Fold(c: Ctx, t: Tree): Tree {
    match c
    case Root => t
    case InLeft(u, r) => Fold(u, Merge(t, r))
    case InRight(u, l) => Fold(u, Merge(l, t))
  }

  // Index, level and first page of the node in the hole of c.
  function Index(c: Ctx): (i: nat)
    ensures i >= 1
  {
    match c
    case Root => 1
    case InLeft(u, _) => LeftChild(Index(u))
    case InRight(u, _) => RightChild(Index(u))
  }

  function Depth(c: Ctx): nat {
    if c.Root? then 0 else 1 + Depth(c.up)
  }

  function Base(c: Ctx, h: nat): nat
    decreases c, h
  {
    match c
    case Root => 0
    case InLeft(u, _) => Base(u, h + 1)
    case InRight(u, _) => Base(u, h + 1) + Exp2(h)
  }

  // The nodes beside the way down are recorded; the way itself may be stale.
  ghost predicate RepCtx(rec: seq<nat>, c: Ctx, h: nat)
    decreases c, rec, h
  {
    match c
    case Root => true
    case InLeft(u, r) => Rep(rec, RightChild(Index(u)), r, h) && RepCtx(rec, u, h + 1)
    case InRight(u, l) => Rep(rec, LeftChild(Index(u)), l, h) && RepCtx(rec, u, h + 1)
  }

  ghost predicate CanonicalCtx(c: Ctx, h: nat, end: nat)
    decreases c, h, end
  {
    match c
    case Root => true
    case InLeft(u, r) => Canonical(r, Base(u, h + 1) + Exp2(h), h, end) && CanonicalCtx(u, h + 1, end)
    case InRight(u, l) => Canonical(l, Base(u, h + 1), h, end) && CanonicalCtx(u, h + 1, end)
  }

  lemma {:induction false} CtxNode(c: Ctx, h: nat, height: nat) returns (k: nat)
    requires Depth(c) + h == height
    ensures AtNode(Exp2(height), Index(c), Base(c, h), h, Depth(c), k)
    decreases c
  {
    match c {
      case Root =>
        k := 0;
      case InLeft(u, _) =>
        k := CtxNode(u, h + 1, height);
        Children(Exp2(height), Index(u), Base(u, h + 1), h + 1, Depth(u), k);
        k := k + k;
      case InRight(u, _) =>
        k := CtxNode(u, h + 1, height);
        Children(Exp2(height), Index(u), Base(u, h + 1), h + 1, Depth(u), k);
        k := k + k + 1;
    }
  }

  lemma {:induction false} CtxBounds(c: Ctx, h: nat, height: nat)
    requires Depth(c) + h == height
    ensures Index(c) < Exp2(height) + Exp2(height)
    ensures Base(c, h) + Exp2(h) <= Exp2(height)
  {
    var k := CtxNode(c, h, height);
    NodeBounds(Exp2(height), Index(c), Base(c, h), h, Depth(c), k);
  }

  lemma {:induction false} ChildBounds(c: Ctx, h: nat, height: nat)
    requires Depth(c) + h == height && h > 0
    ensures RightChild(Index(c)) < Exp2(height) + Exp2(height)
  {
    CtxBounds(InRight(c, Absent), h - 1, height);
  }

  // What the geometry macros evaluate to at the node in the hole of c.
  lemma {:induction false} CtxGeometry(c: Ctx, h: nat, height: nat)
    requires Depth(c) + h == height && Exp2(height) + Exp2(height) <= MACRO_RANGE
    ensures PowerRoundDown(Index(c)) != 0
    ensures NodeLength(Exp2(height), Index(c)) == Exp2(h)
    ensures NodeBeginning(Exp2(height), Index(c)) == Base(c, h)
    ensures NodeEnding(Exp2(height), Index(c)) == Base(c, h) + Exp2(h)
  {
    var k := CtxNode(c, h, height);
    CtxBounds(c, h, height);
    NodeGeometry(Exp2(height), Index(c), Base(c, h), h, Depth(c), k);
  }

  lemma {:induction false} CtxBlock(c: Ctx, h: nat, height: nat, full: nat, begin: nat, end: nat)
    requires Depth(c) + h == height && full == Exp2(height)
    requires begin == Base(c, h) && end == begin + Exp2(h)
    ensures BuddyBlock(full, begin, end) == Index(c)
  {
    var k := CtxNode(c, h, height);
    NodeBlock(full, Index(c), begin, h, Depth(c), k, end);
  }

  // ---------- Writes below a node ----------

  // j is i or a descendant of i.
  predicate Below(i: nat, j: nat)
    decreases j, i
  {
    j == i || (j > i && Below(i, Parent(j)))
  }

  lemma {:induction false} BelowParent(i: nat, j: nat)
    requires i >= 1 && Below(i, j)
    ensures Below(Parent(i), j)
    decreases j
  {
    if j == i {
      assert Below(Parent(i), Parent(i));
    } else {
      BelowParent(i, Parent(j));
    }
  }

  lemma {:induction false} BelowSibling(i: nat, s: nat, j: nat)
    requires i >= 2 && s >= 2 && (s == i + 1 || i == s + 1) && Below(i, j)
    ensures !Below(s, j)
    decreases j
  {
    if j != i && j > s {
      BelowSibling(i, s, Parent(j));
    }
  }

  lemma {:induction false} NotBelowChild(i: nat, j: nat)
    requires i >= 1 && !Below(i, j)
    ensures !Below(LeftChild(i), j) && !Below(RightChild(i), j)
    decreases j
  {
    if j > LeftChild(i) {
      NotBelowChild(i, Parent(j));
    }
  }

  lemma {:induction false} RepFrame(rec: seq<nat>, i: nat, t: Tree, h: nat, j: nat, v: nat)
    requires Rep(rec, i, t, h) && i >= 1 && j < |rec| && !Below(i, j)
    ensures Rep(rec[j := v], i, t, h)
    decreases t
  {
    if t.Split? {
      NotBelowChild(i, j);
      RepFrame(rec, LeftChild(i), t.left, h - 1, j, v);
      RepFrame(rec, RightChild(i), t.right, h - 1, j, v);
    }
  }

  // A write at or below the hole leaves the rest of the tree recorded.
  lemma {:induction false} CtxFrame(rec: seq<nat>, c: Ctx, h: nat, j: nat, v: nat)
    requires RepCtx(rec, c, h) && j < |rec| && Below(Index(c), j)
    ensures RepCtx(rec[j := v], c, h)
    decreases c
  {
    match c
    case Root =>
    case InLeft(u, r) =>
      BelowSibling(Index(c), RightChild(Index(u)), j);
      RepFrame(rec, RightChild(Index(u)), r, h, j, v);
      BelowParent(Index(c), j);
      CtxFrame(rec, u, h + 1, j, v);
    case InRight(u, l) =>
      BelowSibling(Index(c), LeftChild(Index(u)), j);
      RepFrame(rec, LeftChild(Index(u)), l, h, j, v);
      BelowParent(Index(c), j);
      CtxFrame(rec, u, h + 1, j, v);
  }

  // Recomputing a parent from its children records the split node.
  lemma {:induction false} JoinUp(rec: seq<nat>, i: nat, l: Tree, r: Tree, h: nat)
    requires 1 <= i < |rec| && Rep(rec, LeftChild(i), l, h) && Rep(rec, RightChild(i), r, h)
    ensures Rep(rec[i := Or(rec[LeftChild(i)], rec[RightChild(i)])], i, Split(l, r), h + 1)
  {
    var v := Or(rec[LeftChild(i)], rec[RightChild(i)]);
    assert !Below(LeftChild(i), i) && !Below(RightChild(i), i);
    RepFrame(rec, LeftChild(i), l, h, i, v);
    RepFrame(rec, RightChild(i), r, h, i, v);
  }

  // Records on the way down that hold already (used while the tree is built).
  ghost predicate RepWay(rec: seq<nat>, c: Ctx, t: Tree, h: nat)
    decreases c, rec, t, h
  {
    match c
    case Root => true
    case InLeft(u, r) =>
      && Index(u) < |rec| && rec[Index(u)] == Rec(Split(t, r), h + 1)
      && RepWay(rec, u, Split(t, r), h + 1)
    case InRight(u, l) =>
      && Index(u) < |rec| && rec[Index(u)] == Rec(Split(l, t), h + 1)
      && RepWay(rec, u, Split(l, t), h + 1)
  }

  lemma {:induction false} WayFrame(rec: seq<nat>, c: Ctx, t: Tree, h: nat, j: nat, v: nat)
    requires RepWay(rec, c, t, h) && Index(c) <= j < |rec|
    ensures RepWay(rec[j := v], c, t, h)
    decreases c
  {
    match c
    case Root =>
    case InLeft(u, r) => WayFrame(rec, u, Split(t, r), h + 1, j, v);
    case InRight(u, l) => WayFrame(rec, u, Split(l, t), h + 1, j, v);
  }

  lemma {:induction false} RepWhole(rec: seq<nat>, c: Ctx, t: Tree, h: nat, height: nat)
    requires Depth(c) + h == height
    requires Rep(rec, Index(c), t, h) && RepCtx(rec, c, h) && RepWay(rec, c, t, h)
    ensures Rep(rec, 1, Plug(c, t), height)
    decreases c
  {
    match c
    case Root =>
    case InLeft(u, r) =>
      assert Rep(rec, Index(u), Split(t, r), h + 1);
      RepWhole(rec, u, Split(t, r), h + 1, height);
    case InRight(u, l) =>
      assert Rep(rec, Index(u), Split(l, t), h + 1);
      RepWhole(rec, u, Split(l, t), h + 1, height);
  }

  // ---------- Free blocks of a plugged tree ----------

  lemma {:induction false} FreeOutside(t: Tree, base: nat, h: nat, b: nat)
    requires !(base <= b < base + Exp2(h))
    ensures FreeLen(t, base, h, b) == 0
    decreases t
  {
    match t
    case Split(l, r) =>
      if h > 0 {
        FreeOutside(l, base, h - 1, b);
        FreeOutside(r, base + Exp2(h - 1), h - 1, b);
      }
    case _ =>
  }

  lemma {:induction false} PlugInside(c: Ctx, t: Tree, h: nat, height: nat, b: nat)
    requires Depth(c) + h == height && Base(c, h) <= b < Base(c, h) + Exp2(h)
    ensures FreeLen(Plug(c, t), 0, height, b) == FreeLen(t, Base(c, h), h, b)
    decreases c
  {
    match c
    case Root =>
    case InLeft(u, r) => PlugInside(u, Split(t, r), h + 1, height, b);
    case InRight(u, l) => PlugInside(u, Split(l, t), h + 1, height, b);
  }

  lemma {:induction false} PlugOutside(c: Ctx, t: Tree, t': Tree, h: nat, height: nat, b: nat)
    requires Depth(c) + h == height && !(Base(c, h) <= b < Base(c, h) + Exp2(h))
    ensures FreeLen(Plug(c, t), 0, height, b) == FreeLen(Plug(c, t'), 0, height, b)
    decreases c, 0
  {
    match c
    case Root =>
      FreeOutside(t, 0, h, b);
      FreeOutside(t', 0, h, b);
    case InLeft(u, r) =>
      FreeOutside(t, Base(c, h), h, b);
      FreeOutside(t', Base(c, h), h, b);
      PlugUp(u, Split(t, r), Split(t', r), h + 1, height, b);
    case InRight(u, l) =>
      FreeOutside(t, Base(c, h), h, b);
      FreeOutside(t', Base(c, h), h, b);
      PlugUp(u, Split(l, t), Split(l, t'), h + 1, height, b);
  }

  // Trees in a hole that agree at page b agree there when plugged.
  lemma {:induction false} PlugUp(c: Ctx, t: Tree, t': Tree, h: nat, height: nat, b: nat)
    requires Depth(c) + h == height
    requires FreeLen(t, Base(c, h), h, b) == FreeLen(t', Base(c, h), h, b)
    ensures FreeLen(Plug(c, t), 0, height, b) == FreeLen(Plug(c, t'), 0, height, b)
    decreases c, 1
  {
    if Base(c, h) <= b < Base(c, h) + Exp2(h) {
      PlugInside(c, t, h, height, b);
      PlugInside(c, t', h, height, b);
    } else {
      PlugOutside(c, t, t', h, height, b);
    }
  }

  // t' has the free blocks of t, except that page x now heads v free pages.
  ghost predicate FreeLenSet(t: Tree, t': Tree, height: nat, x: nat, v: nat) {
    forall b: nat :: FreeLen(t', 0, height, b) == if b == x then v else FreeLen(t, 0, height, b)
  }

  // The node in the hole changes from t to t' in the same way.
  ghost predicate HoleSet(c: Ctx, t: Tree, t': Tree, h: nat, x: nat, v: nat) {
    && Base(c, h) <= x < Base(c, h) + Exp2(h)
    && forall b: nat :: Base(c, h) <= b < Base(c, h) + Exp2(h) ==>
         FreeLen(t', Base(c, h), h, b) == if b == x then v else FreeLen(t, Base(c, h), h, b)
  }

  lemma {:induction false} PlugSet(c: Ctx, t: Tree, t': Tree, h: nat, height: nat, x: nat, v: nat)
    requires Depth(c) + h == height && HoleSet(c, t, t', h, x, v)
    ensures FreeLenSet(Plug(c, t), Plug(c, t'), height, x, v)
  {
    forall b: nat
      ensures FreeLen(Plug(c, t'), 0, height, b) == if b == x then v else FreeLen(Plug(c, t), 0, height, b)
    {
      if Base(c, h) <= b < Base(c, h) + Exp2(h) {
        PlugInside(c, t, h, height, b);
        PlugInside(c, t', h, height, b);
      } else {
        PlugOutside(c, t, t', h, height, b);
      }
    }
  }

  // ---------- The free list ----------

  // The list holds exactly the heads of the free blocks, once each, and each
  // head's property is the length of its block.
  ghost predicate Listed(list: seq<nat>, prop: seq<nat>, t: Tree, height: nat) {
    Heads(list, prop, t, 0, height)
  }

  ghost predicate Heads(list: seq<nat>, prop: seq<nat>, t: Tree, base: nat, h: nat) {
    && NoDup(list)
    && (forall b: nat :: b in list <==> FreeLen(t, base, h, b) > 0)
    && (forall b: nat :: b in list ==> b < |prop| && prop[b] == FreeLen(t, base, h, b))
  }

  // Of the listed pages with the given length the least, or, if there is none,
  // the least of those with a greater length.
  ghost predicate BestFit(list: seq<nat>, prop: seq<nat>, length: nat, page: nat) {
    && page in list && page < |prop|
    && if exists b: nat :: b in list && b < |prop| && prop[b] == length then
      prop[page] == length && forall b: nat :: b in list && b < |prop| && prop[b] == length ==> page <= b
    else
      prop[page] > length && forall b: nat :: b in list && b < |prop| && prop[b] > length ==> page <= b
  }

  lemma {:induction false} BestIsLeast(list: seq<nat>, prop: seq<nat>, t: Tree, height: nat, end: nat, k: nat)
    requires Listed(list, prop, t, height) && Fits(t, 0, height, end, k)
    ensures BestFit(list, prop, Exp2(k), TakeAt(t, height, k))
  {
    hide Fits, TakeAt;
    var at := TakeAt(t, height, k);
    TakeIsLeastFit(t, height, end, k);
    assert at in list <==> FreeLen(t, 0, height, at) > 0;
    if b: nat :| FreeLen(t, 0, height, b) == Exp2(k) {
      assert b in list;
    }
  }

  lemma {:induction false} ListedDel(list: seq<nat>, prop: seq<nat>, t: Tree, t': Tree, height: nat, x: nat)
    requires Listed(list, prop, t, height) && FreeLenSet(t, t', height, x, 0)
    ensures Listed(Del(list, x), prop, t', height)
  {
    DelNoDup(list, x);
    forall b: nat ensures b in Del(list, x) <==> b in list && b != x { DelMember(list, x, b); }
  }

  lemma {:induction false} ListedAdd(list: seq<nat>, prop: seq<nat>, t: Tree, t': Tree, height: nat, x: nat, v: nat)
    requires Listed(list, prop, t, height) && FreeLenSet(t, t', height, x, v)
    requires FreeLen(t, 0, height, x) == 0 && v > 0 && x < |prop|
    ensures Listed([x] + list, prop[x := v], t', height)
  {
    AddNoDup(list, x);
  }

  // The steps the methods take: a head appears in, or leaves, the hole.
  lemma {:induction false} HeadAppears(c: Ctx, t: Tree, t': Tree, h: nat, height: nat, x: nat, v: nat,
                                       list: seq<nat>, prop: seq<nat>)
    requires Depth(c) + h == height && HoleSet(c, t, t', h, x, v) && x < |prop|
    requires FreeLen(t, Base(c, h), h, x) == 0 && v > 0
    requires Listed(list, prop, Plug(c, t), height)
    ensures Listed([x] + list, prop[x := v], Plug(c, t'), height)
  {
    PlugSet(c, t, t', h, height, x, v);
    PlugInside(c, t, h, height, x);
    ListedAdd(list, prop, Plug(c, t), Plug(c, t'), height, x, v);
  }

  lemma {:induction false} HeadLeaves(c: Ctx, t: Tree, t': Tree, h: nat, height: nat, x: nat,
                                      list: seq<nat>, prop: seq<nat>)
    requires Depth(c) + h == height && HoleSet(c, t, t', h, x, 0)
    requires FreeLen(t, Base(c, h), h, x) > 0
    requires Listed(list, prop, Plug(c, t), height)
    ensures x in list && Listed(Del(list, x), prop, Plug(c, t'), height)
  {
    PlugSet(c, t, t', h, height, x, 0);
    PlugInside(c, t, h, height, x);
    ListedDel(list, prop, Plug(c, t), Plug(c, t'), height, x);
  }

  // ---------- The total of the free list ----------

  function Sum(list: seq<nat>, prop: seq<nat>): nat
    requires forall i :: 0 <= i < |list| ==> list[i] < |prop|
  {
    if list == [] then 0 else prop[list[0]] + Sum(list[1..], prop)
  }

  // The entries of list below mid, or those from mid on.
  function Side(list: seq<nat>, mid: nat, below: bool): seq<nat> {
    if list == [] then []
    else if (list[0] < mid) == below then [list[0]] + Side(list[1..], mid, below)
    else Side(list[1..], mid, below)
  }

  lemma {:induction false} SideKeeps(list: seq<nat>, mid: nat, below: bool)
    requires NoDup(list)
    ensures NoDup(Side(list, mid, below))
    ensures forall b :: b in Side(list, mid, below) <==> b in list && (b < mid) == below
    decreases |list|
  {
    if list != [] {
      var rest := Side(list[1..], mid, below);
      assert list == [list[0]] + list[1..];
      SideKeeps(list[1..], mid, below);
      if (list[0] < mid) == below {
        AddNoDup(rest, list[0]);
      }
    }
  }

  lemma {:induction false} SideSum(list: seq<nat>, mid: nat, prop: seq<nat>)
    requires NoDup(list) && forall i :: 0 <= i < |list| ==> list[i] < |prop|
    ensures forall below, i :: 0 <= i < |Side(list, mid, below)| ==> Side(list, mid, below)[i] < |prop|
    ensures Sum(list, prop) == Sum(Side(list, mid, true), prop) + Sum(Side(list, mid, false), prop)
    decreases |list|
  {
    if list != [] {
      SideSum(list[1..], mid, prop);
      var below := list[0] < mid;
      assert Side(list, mid, below)[1..] == Side(list[1..], mid, below);
    }
  }

  // The heads of a list for a split node fall into those of its halves.
  lemma {:induction false} SideHeads(list: seq<nat>, prop: seq<nat>, l: Tree, r: Tree, base: nat, h: nat)
    requires h > 0 && Heads(list, prop, Split(l, r), base, h)
    ensures Heads(Side(list, base + Exp2(h - 1), true), prop, l, base, h - 1)
    ensures Heads(Side(list, base + Exp2(h - 1), false), prop, r, base + Exp2(h - 1), h - 1)
  {
    var mid, d := base + Exp2(h - 1), h - 1;
    SideKeeps(list, mid, true);
    SideKeeps(list, mid, false);
    forall b: nat | b >= mid ensures FreeLen(l, base, d, b) == 0 {
      FreeOutside(l, base, d, b);
    }
    forall b: nat | b < mid ensures FreeLen(r, mid, d, b) == 0 {
      FreeOutside(r, mid, d, b);
    }
  }

  // The lengths of the free blocks, taken from a list of their heads, add up to
  // the free pages of the tree.
  lemma {:induction false} SumOfHeads(list: seq<nat>, prop: seq<nat>, t: Tree, base: nat, h: nat, end: nat)
    requires Canonical(t, base, h, end) && Heads(list, prop, t, base, h)
    ensures forall i :: 0 <= i < |list| ==> list[i] < |prop|
    ensures Sum(list, prop) == FreeTotal(t, h)
    decreases t
  {
    hide Side, NoDup;
    forall i | 0 <= i < |list| ensures list[i] in list && list[i] < |prop| {
    }
    match t
    case Free =>
      OneHead(list, prop, base, h);
    case Split(l, r) =>
      var mid, d := base + Exp2(h - 1), h - 1;
      SideHeads(list, prop, l, r, base, h);
      SideSum(list, mid, prop);
      SumOfHeads(Side(list, mid, true), prop, l, base, d, end);
      SumOfHeads(Side(list, mid, false), prop, r, mid, d, end);
    case _ =>
      assert forall b: nat :: FreeLen(t, base, h, b) == 0;
      FirstMembers(list);
  }

  lemma {:induction false} OneHead(list: seq<nat>, prop: seq<nat>, base: nat, h: nat)
    requires Heads(list, prop, Free, base, h)
    ensures list == [base] && base < |prop| && Sum(list, prop) == Exp2(h)
  {
    assert base in list;
    FirstMembers(list);
  }

  lemma {:induction false} FirstMembers(list: seq<nat>)
    ensures |list| > 0 ==> list[0] in list
    ensures |list| > 1 && NoDup(list) ==> list[1] in list && list[1] != list[0]
  {
  }

  // ---------- Going down a path at once ----------

  function Walk(c: Ctx, t: Tree, p: Path): Ctx
    decreases p, c, t
  {
    match p
    case Here => c
    case Left(q) => if t.Split? then Walk(InLeft(c, t.right), t.left, q) else c
    case Right(q) => if t.Split? then Walk(InRight(c, t.left), t.right, q) else c
  }

  lemma {:induction false} WalkAt(c: Ctx, t: Tree, h: nat, p: Path, k: nat)
    requires Holds(t, h, p, k)
    ensures Depth(Walk(c, t, p)) + k == Depth(c) + h
    ensures Base(Walk(c, t, p), k) == Reach(Base(c, h), h, p)
    decreases p
  {
    match p
    case Here =>
    case Left(q) => WalkAt(InLeft(c, t.right), t.left, h - 1, q, k);
    case Right(q) => WalkAt(InRight(c, t.left), t.right, h - 1, q, k);
  }

  lemma {:induction false} WalkRep(rec: seq<nat>, c: Ctx, t: Tree, h: nat, p: Path, k: nat)
    requires Rep(rec, Index(c), t, h) && RepCtx(rec, c, h) && Holds(t, h, p, k)
    ensures RepCtx(rec, Walk(c, t, p), k)
    decreases p
  {
    match p
    case Here =>
    case Left(q) => WalkRep(rec, InLeft(c, t.right), t.left, h - 1, q, k);
    case Right(q) => WalkRep(rec, InRight(c, t.left), t.right, h - 1, q, k);
  }

  lemma {:induction false} WalkCanonical(c: Ctx, t: Tree, h: nat, end: nat, p: Path, k: nat)
    requires Canonical(t, Base(c, h), h, end) && CanonicalCtx(c, h, end) && Holds(t, h, p, k)
    ensures CanonicalCtx(Walk(c, t, p), k, end)
    decreases p
  {
    match p
    case Here =>
    case Left(q) => WalkCanonical(InLeft(c, t.right), t.left, h - 1, end, q, k);
    case Right(q) => WalkCanonical(InRight(c, t.left), t.right, h - 1, end, q, k);
  }

  // Giving back the node at the end of a path is folding a free node back.
  lemma {:induction false} WalkFold(c: Ctx, t: Tree, h: nat, p: Path, k: nat)
    requires Holds(t, h, p, k)
    ensures Plug(Walk(c, t, p), Allocated) == Plug(c, t)
    ensures Fold(Walk(c, t, p), Free) == Fold(c, Restore(t, p))
    decreases p
  {
    match p
    case Here =>
    case Left(q) => WalkFold(InLeft(c, t.right), t.left, h - 1, q, k);
    case Right(q) => WalkFold(InRight(c, t.left), t.right, h - 1, q, k);
  }
}
