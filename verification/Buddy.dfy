// The buddy page allocator of lab2/kern/mm/buddy.c over its record array, free
// list and page properties. Pages are numbered from the start of the area that
// is handed out.

module Buddy {
  import opened Bits
  import opened BuddyGeometry
  import opened BuddyTree
  import opened BuddyRep
  import opened BuddySteps
  import opened Lists
  import opened Wrappers

  const TREE_ROOT: nat := 1

  class BuddyManager {
    var full: nat              // full_tree_size
    var usable: nat            // real_tree_size
    var record: array<nat>     // record_area
    var property: array<nat>   // property of each page
    var freeList: seq<nat>
    var nrFree: nat
    ghost var height: nat
    ghost var tree: Tree

    ghost predicate Shape()
      reads this
    {
      && full == Exp2(height) && full + full <= MACRO_RANGE
      && full + full <= record.Length
      && usable == property.Length
      && record != property
    }

    ghost predicate Valid()
      reads this, record, property
    {
      && Shape()
      && Canonical(tree, 0, height, usable)
      && Rep(record[..], TREE_ROOT, tree, height)
      && Listed(freeList, property[..], tree, height)
      && nrFree == FreeTotal(tree, height)
    }

    // The free list, with the properties of its entries, is the list of the
    // maximal aligned free runs, and nr_free is the sum of their lengths.
    lemma {:induction false} FreeListIsMaximal(b: nat, k: nat)
      requires Valid()
      ensures b in freeList && b < property.Length && property[b] == Exp2(k) <==> MaximalRun(tree, height, b, k)
      ensures forall i :: 0 <= i < |freeList| ==> freeList[i] < property.Length
      ensures nrFree == Sum(freeList, property[..])
    {
      FreeBlocksAreMaximal(tree, height, usable, b, k);
      SumOfHeads(freeList, property[..], tree, 0, height, usable);
    }

    // buddy_init and buddy_init_memmap on n pages.
    constructor (n: nat)
      requires 2 <= n < 0x1_0000_0000 && !(258 <= n < 512)
      ensures Valid() && fresh(record) && fresh(property)
      ensures full == Sizing(n).full && usable == Sizing(n).realSize
      ensures tree == InitTree(0, height, usable)
      ensures nrFree == usable
    {
      var layout := Sizing(n);
      full, usable := layout.full, layout.realSize;
      record := new nat[layout.recordPages * (PGSIZE / WORD)](_ => 0);
      property := new nat[layout.realSize](_ => 0);
      freeList, nrFree := [], 0;
      ghost var k := SizingBounds(n);
      height, tree := k, Absent;
      new;
      SizingHeight(n, height);
      RecordFits(n);
      BuildTree();
    }

    // NODE_LENGTH and NODE_BEGINNING of the node in the hole of c.
    method LengthOf(block: nat, ghost c: Ctx, ghost h: nat) returns (len: nat)
      requires Shape() && Depth(c) + h == height && block == Index(c)
      ensures len == Exp2(h)
    {
      CtxGeometry(c, h, height);
      len := NodeLength(full, block);
    }

    method BeginOf(block: nat, ghost c: Ctx, ghost h: nat) returns (page: nat)
      requires Shape() && Depth(c) + h == height && block == Index(c)
      ensures page == Base(c, h)
    {
      CtxGeometry(c, h, height);
      page := NodeBeginning(full, block);
    }

    method MiddleOf(block: nat, ghost c: Ctx, ghost h: nat) returns (page: nat)
      requires Shape() && Depth(c) + h == height && block == Index(c) && h > 0
      ensures page == Base(c, h) + Exp2(h - 1)
    {
      CtxGeometry(c, h, height);
      page := Half(NodeBeginning(full, block) + NodeEnding(full, block));
    }

    // ---------- buddy_init_memmap ----------

    // The loop of buddy_init_memmap: mark the binary digits of the real size
    // as free blocks.
    method BuildTree()
      requires Shape() && 0 < usable <= full && freeList == [] && nrFree == 0
      modifies this`freeList, this`nrFree, this`tree, record, property
      ensures Valid() && tree == InitTree(0, height, usable) && nrFree == usable
    {
      hide BuildInv, InitTree, Canonical, Rep, Listed;
      nrFree := nrFree + usable;
      var block: nat := TREE_ROOT;
      var realSubtree: nat, fullSubtree: nat := usable, full;
      ghost var c, h: nat := Root, height;
      record[block] := realSubtree;
      BuildStart(record[..], property[..], height, usable);
      while realSubtree > 0 && realSubtree < fullSubtree
        invariant block == Index(c) && nrFree == usable
        invariant fullSubtree == Exp2(h) && realSubtree == InitPages(Base(c, h), h, usable)
        invariant BuildInv(record[..], property[..], freeList, c, h, height, usable)
        decreases h
      {
        fullSubtree := Half(fullSubtree);
        block, realSubtree, c, h := BuildStep(block, fullSubtree, realSubtree, c, h);
      }
      MarkLast(block, realSubtree, c, h);
    }

    // One round of that loop.
    method BuildStep(block: nat, half: nat, realSubtree: nat, ghost c: Ctx, ghost h: nat)
        returns (block': nat, realSubtree': nat, ghost c': Ctx, ghost h': nat)
      requires Shape() && h > 0 && half == Exp2(h - 1) && block == Index(c)
      requires 0 < realSubtree < Exp2(h) && realSubtree == InitPages(Base(c, h), h, usable)
      requires BuildInv(record[..], property[..], freeList, c, h, height, usable)
      modifies this`freeList, record, property
      ensures h' == h - 1 && block' == Index(c') && realSubtree' == InitPages(Base(c', h'), h', usable)
      ensures BuildInv(record[..], property[..], freeList, c', h', height, usable)
    {
      if realSubtree > half {
        MarkLeftFree(block, half, realSubtree, c, h);
        return RightChild(block), realSubtree - half, InRight(c, Free), h - 1;
      } else {
        MarkRightAbsent(block, realSubtree, c, h);
        return LeftChild(block), realSubtree, InLeft(c, Absent), h - 1;
      }
    }

    method MarkLeftFree(block: nat, half: nat, realSubtree: nat, ghost c: Ctx, ghost h: nat)
      requires Shape() && h > 0 && half == Exp2(h - 1) && block == Index(c)
      requires half < realSubtree < Exp2(h) && realSubtree == InitPages(Base(c, h), h, usable)
      requires BuildInv(record[..], property[..], freeList, c, h, height, usable)
      modifies this`freeList, record, property
      ensures BuildInv(record[..], property[..], freeList, InRight(c, Free), h - 1, height, usable)
      ensures realSubtree - half == InitPages(Base(InRight(c, Free), h - 1), h - 1, usable)
    {
      hide BuildRec, Rep, RepCtx, RepWay, Plug, Listed, InitTree;
      ghost var prop, rec, list := property[..], record[..], freeList;
      ChildBounds(c, h, height);
      var page := BeginOf(block, c, h);
      property[page] := half;
      freeList := [page] + freeList;
      record[LeftChild(block)] := half;
      record[RightChild(block)] := realSubtree - half;
      assert property[..] == prop[page := half];
      assert record[..] == Marked(rec, LeftChild(block), half, realSubtree - half);
      BuildRightStep(rec, prop, list, c, h, height, usable, page, half, realSubtree - half);
    }

    method MarkRightAbsent(block: nat, realSubtree: nat, ghost c: Ctx, ghost h: nat)
      requires Shape() && h > 0 && block == Index(c)
      requires 0 < realSubtree <= Exp2(h - 1) && realSubtree == InitPages(Base(c, h), h, usable)
      requires BuildInv(record[..], property[..], freeList, c, h, height, usable)
      modifies record
      ensures BuildInv(record[..], property[..], freeList, InLeft(c, Absent), h - 1, height, usable)
      ensures realSubtree == InitPages(Base(InLeft(c, Absent), h - 1), h - 1, usable)
    {
      ghost var rec := record[..];
      ChildBounds(c, h, height);
      record[LeftChild(block)] := realSubtree;
      record[RightChild(block)] := 0;
      assert record[..] == Marked(rec, LeftChild(block), realSubtree, 0);
      BuildLeftRec(rec, c, h, usable, Base(c, h), realSubtree);
      NoHeads(c, h, height, property[..], freeList);
    }

    // The part of buddy_init_memmap after its loop.
    method MarkLast(block: nat, realSubtree: nat, ghost c: Ctx, ghost h: nat)
      requires Shape() && block == Index(c) && realSubtree == InitPages(Base(c, h), h, usable)
      requires realSubtree == 0 || realSubtree >= Exp2(h)
      requires BuildInv(record[..], property[..], freeList, c, h, height, usable)
      requires nrFree == usable <= full
      modifies this`freeList, this`tree, property
      ensures Valid() && tree == InitTree(0, height, usable) && nrFree == usable
    {
      if realSubtree > 0 {
        ghost var prop := property[..];
        var page := BeginOf(block, c, h);
        property[page] := realSubtree;
        assert property[..] == prop[page := realSubtree];
        HeadAppears(c, Absent, Free, h, height, page, realSubtree, freeList, prop);
        freeList := [page] + freeList;
      }
      tree := Plug(c, Free);
      InitRec(Base(c, h), h, usable);
      RepWhole(record[..], c, Free, h, height);
      InitCanonical(0, height, usable);
      InitTotal(0, height, usable);
    }

    // ---------- buddy_allocate_pages ----------

    // The requests left out are those that rounding takes below themselves.
    method AllocatePages(n: nat) returns (page: Option<nat>)
      requires Valid() && 0 < n < SIZE_RANGE && (n <= SIZE_HALF || PowerRemainder(n) == 0)
      modifies this`freeList, this`nrFree, this`tree, record, property
      ensures Valid()
      ensures n >= MACRO_RANGE ==> page.None?
      ensures n < MACRO_RANGE ==> var k := CeilLog(n);
        page == if Exp2(k) <= Rec(old(tree), height) then Some(TakeAt(old(tree), height, k)) else None
      ensures page.Some? <==> exists b: nat ::
                AlignedIn(0, height, b, CeilLog(n)) && FreeRun(old(tree), 0, height, b, Exp2(CeilLog(n)))
      ensures page.Some? ==> BestFit(old(freeList), old(property[..]), Exp2(CeilLog(n)), page.value)
      ensures page.Some? ==> tree == Take(old(tree), height, CeilLog(n))
      ensures page.Some? ==> nrFree == old(nrFree) - Exp2(CeilLog(n))
      ensures page.None? ==> tree == old(tree) && freeList == old(freeList) && nrFree == old(nrFree)
      ensures page.None? ==> record[..] == old(record[..]) && property[..] == old(property[..])
    {
      hide Valid, Rec, Take, TakeAt, FreeRun, AlignedIn, CeilLog, PowerRoundUp, BestFit;
      ValidParts();
      RootRecord(record[..], tree, height);
      var length := PowerRoundUp(n);
      RequestLength(n);
      RecBound(tree, 0, height, usable);
      Completeness(tree, height, usable, CeilLog(n));
      // The loop below keeps length <= record[block], so the test that follows
      // it can only fail when it is never entered.
      if length > record[TREE_ROOT] {
        return None;
      }
      var begin := AllocateBlock(length, CeilLog(n));
      return Some(begin);
    }

    lemma {:induction false} ValidParts()
      requires Valid()
      ensures Shape() && Canonical(tree, 0, height, usable) && Rep(record[..], TREE_ROOT, tree, height)
    {
    }

    // The part that succeeds.
    method AllocateBlock(length: nat, ghost k: nat) returns (begin: nat)
      requires Valid() && length == Exp2(k) <= Rec(tree, height)
      modifies this`freeList, this`nrFree, this`tree, record, property
      ensures Valid() && begin == TakeAt(old(tree), height, k) && tree == Take(old(tree), height, k)
      ensures nrFree == old(nrFree) - length
      ensures BestFit(old(freeList), old(property[..]), length, begin)
    {
      hide Canonical, Rep, Rec, Listed, Take, TakeAt, BestFit;
      TakeEffect(tree, height, usable, k, 0);
      BestIsLeast(freeList, property[..], tree, height, usable, k);
      var block, c, h := Descend(length, k);
      begin := TakeBlock(block, length, k, c, h);
      Climb(block, c, h, Take(tree, height, k));
      tree := Take(tree, height, k);
    }

    // Its first loop.
    method Descend(length: nat, ghost k: nat) returns (block: nat, ghost c: Ctx, ghost h: nat)
      requires Valid() && length == Exp2(k) && Fits(tree, 0, height, usable, k)
      modifies this`freeList, record, property
      ensures block == Index(c) && h == k
      ensures AllocInv(record[..], property[..], freeList, c, Free, h, k, tree, height, usable)
    {
      block := TREE_ROOT;
      ghost var sub := tree;
      c, h := Root, height;
      var len := LengthOf(block, c, h);
      while length <= record[block] && length < len
        invariant block == Index(c) && len == Exp2(h)
        invariant AllocInv(record[..], property[..], freeList, c, sub, h, k, tree, height, usable)
        decreases h
      {
        block, c, sub := DescendStep(block, length, len, c, sub, h, k);
        h := h - 1;
        len := LengthOf(block, c, h);
      }
      DescentEnds(c, sub, h, k, tree, height, usable);
    }

    // One round of that loop.
    method DescendStep(block: nat, length: nat, len: nat, ghost c: Ctx, ghost sub: Tree, ghost h: nat, ghost k: nat)
        returns (block': nat, ghost c': Ctx, ghost sub': Tree)
      requires Shape() && block == Index(c) && len == Exp2(h) && length == Exp2(k) && length < len
      requires AllocInv(record[..], property[..], freeList, c, sub, h, k, tree, height, usable)
      modifies this`freeList, record, property
      ensures h > 0 && block' == Index(c')
      ensures AllocInv(record[..], property[..], freeList, c', sub', h - 1, k, tree, height, usable)
    {
      RecBound(sub, Base(c, h), h, usable);
      FitsBelow(sub, Base(c, h), h, usable, k);
      if record[block] == len {
        SplitNode(block, c, h);
        SplitDown(c, h, k, tree, height, usable);
        return LeftChild(block), InLeft(c, Free), Free;
      }
      var left, right := LeftChild(block), RightChild(block);
      GoDown(record[..], property[..], freeList, c, sub.left, sub.right, h, k, tree, height, usable);
      if And(length, record[left]) != 0 {
        return left, InLeft(c, sub.right), sub.left;
      } else if And(length, record[right]) != 0 {
        return right, InRight(c, sub.left), sub.right;
      } else if length <= record[left] {
        return left, InLeft(c, sub.right), sub.left;
      } else {
        assert length <= record[right];
        return right, InRight(c, sub.left), sub.right;
      }
    }

    // Split a wholly free node.
    method SplitNode(block: nat, ghost c: Ctx, ghost h: nat)
      requires Shape() && block == Index(c) && h > 0 && Depth(c) + h == height
      requires Rep(record[..], block, Free, h) && RepCtx(record[..], c, h) && Base(c, h) + Exp2(h) <= usable
      requires Listed(freeList, property[..], Plug(c, Free), height)
      modifies this`freeList, record, property
      ensures RepCtx(record[..], InLeft(c, Free), h - 1)
      ensures Rep(record[..], LeftChild(block), Free, h - 1)
      ensures Listed(freeList, property[..], Plug(c, Split(Free, Free)), height)
    {
      hide Listed, Plug;
      SplitHead(block, c, h);
      ghost var rec := record[..];
      ChildBounds(c, h, height);
      record[LeftChild(block)] := Half(record[block]);
      record[RightChild(block)] := Half(record[block]);
      assert record[..] == Marked(rec, LeftChild(block), Exp2(h - 1), Exp2(h - 1));
      SplitRec(rec, c, h, Exp2(h - 1));
    }

    // Its head gives way to the heads of its halves.
    method SplitHead(block: nat, ghost c: Ctx, ghost h: nat)
      requires Shape() && block == Index(c) && h > 0 && Depth(c) + h == height
      requires Base(c, h) + Exp2(h) <= usable
      requires Listed(freeList, property[..], Plug(c, Free), height)
      modifies this`freeList, property
      ensures Listed(freeList, property[..], Plug(c, Split(Free, Free)), height)
    {
      ghost var prop, list := property[..], freeList;
      var begin := BeginOf(block, c, h);
      var mid := MiddleOf(block, c, h);
      SplitList(c, h, height, prop, list, begin, Exp2(h - 1), mid);
      freeList := Del(freeList, begin);
      property[begin] := Half(property[begin]);
      ghost var prop' := property[..];
      assert prop' == prop[begin := Exp2(h - 1)];
      property[mid] := property[begin];
      assert property[..] == prop'[mid := Exp2(h - 1)];
      freeList := [begin] + freeList;
      freeList := [mid] + freeList;
    }

    // Take the free node found off the list and mark it used.
    method TakeBlock(block: nat, length: nat, ghost k: nat, ghost c: Ctx, ghost h: nat) returns (begin: nat)
      requires Shape() && block == Index(c) && length == Exp2(k) && h == k && nrFree >= length
      requires AllocInv(record[..], property[..], freeList, c, Free, h, k, tree, height, usable)
      modifies this`freeList, this`nrFree, record
      ensures begin == TakeAt(tree, height, k) && nrFree == old(nrFree) - length
      ensures UpInv(record[..], c, Allocated, h, Take(tree, height, k)) && Depth(c) + h == height
      ensures Listed(freeList, property[..], Take(tree, height, k), height)
    {
      hide RepCtx, Listed, Take, Canonical, Plug;
      ghost var rec, list := record[..], freeList;
      DescentEnds(c, Free, h, k, tree, height, usable);
      begin := BeginOf(block, c, h);
      freeList := Del(freeList, begin);
      record[block] := 0;
      nrFree := nrFree - length;
      assert record[..] == rec[block := 0];
      BelowChildren(block);
      CtxFrame(rec, c, h, block, 0);
      HeadLeaves(c, Free, Allocated, h, height, begin, list, property[..]);
    }

    // Its second loop: redo the records of the ancestors.
    method Climb(start: nat, ghost c0: Ctx, ghost h0: nat, ghost target: Tree)
      requires Shape() && start == Index(c0) && Depth(c0) + h0 == height
      requires UpInv(record[..], c0, Allocated, h0, target)
      modifies record
      ensures Rep(record[..], TREE_ROOT, target, height)
    {
      hide UpInv, Rep;
      var block := start;
      ghost var c, h, sub := c0, h0, Allocated;
      while block != TREE_ROOT
        invariant block == Index(c) && Depth(c) + h == height
        invariant UpInv(record[..], c, sub, h, target)
        decreases c
      {
        block := Parent(block);
        ClimbStep(block, c, h, sub, target);
        c, sub, h := c.up, Beside(c, sub), h + 1;
      }
      UpEnds(record[..], c, sub, h, height, target);
    }

    // One round of that loop.
    method ClimbStep(block: nat, ghost c: Ctx, ghost h: nat, ghost sub: Tree, ghost target: Tree)
      requires Shape() && !c.Root? && block == Index(c.up) && UpInv(record[..], c, sub, h, target)
      modifies record
      ensures UpInv(record[..], c.up, Beside(c, sub), h + 1, target)
    {
      hide Rep, RepCtx;
      ghost var rec := record[..];
      UpStep(rec, c, sub, h);
      record[block] := Or(record[LeftChild(block)], record[RightChild(block)]);
      assert record[..] == rec[block := Or(rec[LeftChild(block)], rec[RightChild(block)])];
    }

    // ---------- buddy_free_pages ----------

    method FreePages(base: nat, n: nat)
      requires Valid() && 0 < n < SIZE_RANGE
      requires UsedLen(tree, 0, height, base) == PowerRoundUp(n) > 0
      modifies this`freeList, this`nrFree, this`tree, record, property
      ensures Valid() && tree == Release(old(tree), height, base)
      ensures nrFree == old(nrFree) + PowerRoundUp(n)
    {
      var length := PowerRoundUp(n);
      ghost var t := Release(tree, height, base);
      ghost var c, h := FreeSpot(record[..], tree, height, usable, base);
      ReleaseEffect(tree, height, usable, base, base);
      var block := PutBack(base, length, c, h, t);
      MergeUp(block, c, h, t);
      tree := t;
    }

    // Mark the block free and list it, before any merging.
    method PutBack(base: nat, length: nat, ghost c: Ctx, ghost h: nat, ghost t: Tree) returns (block: nat)
      requires Shape() && Spot(record[..], c, h, tree, height, usable, base, t) && length == Exp2(h)
      requires Listed(freeList, property[..], tree, height)
      modifies this`freeList, this`nrFree, record, property
      ensures block == Index(c) && nrFree == old(nrFree) + length
      ensures FoldInv(record[..], property[..], freeList, c, Free, h, t, height, usable)
    {
      ghost var rec, prop, list := record[..], property[..], freeList;
      block := BlockOf(base, base + length, c, h);
      FoldStart(rec, prop, list, c, h, tree, height, usable, base, t);
      Mark(block, base, length);
      freeList := [base] + freeList;
      nrFree := nrFree + length;
    }

    // Enter the length of a free block in its node and its first page.
    method Mark(block: nat, begin: nat, length: nat)
      requires record != property && block < record.Length && begin < property.Length
      modifies record, property
      ensures record[..] == old(record[..])[block := length]
      ensures property[..] == old(property[..])[begin := length]
    {
      property[begin] := length;
      record[block] := length;
    }

    // BUDDY_BLOCK of a page range.
    method BlockOf(begin: nat, end: nat, ghost c: Ctx, ghost h: nat) returns (block: nat)
      requires Shape() && Depth(c) + h == height && begin == Base(c, h) && end == begin + Exp2(h)
      ensures block == Index(c) < full + full
    {
      CtxBlock(c, h, height, full, begin, end);
      CtxBounds(c, h, height);
      block := BuddyBlock(full, begin, end);
    }

    // The loop of buddy_free_pages.
    method MergeUp(start: nat, ghost c0: Ctx, ghost h0: nat, ghost t: Tree)
      requires Shape() && start == Index(c0)
      requires FoldInv(record[..], property[..], freeList, c0, Free, h0, t, height, usable)
      modifies this`freeList, record, property
      ensures Rep(record[..], TREE_ROOT, t, height) && Listed(freeList, property[..], t, height)
    {
      hide FoldInv, Rep, Listed;
      var block := start;
      ghost var c, h, sub := c0, h0, Free;
      while block != TREE_ROOT
        invariant block == Index(c)
        invariant FoldInv(record[..], property[..], freeList, c, sub, h, t, height, usable)
        decreases c
      {
        block := Parent(block);
        sub := MergeStep(block, c, sub, h, t);
        c, h := c.up, h + 1;
      }
      FoldEnds(record[..], property[..], freeList, c, sub, h, t, height, usable);
    }

    // One round of that loop.
    method MergeStep(block: nat, ghost c: Ctx, ghost sub: Tree, ghost h: nat, ghost t: Tree)
        returns (ghost sub': Tree)
      requires Shape() && !c.Root? && block == Index(c.up)
      requires FoldInv(record[..], property[..], freeList, c, sub, h, t, height, usable)
      modifies this`freeList, record, property
      ensures FoldInv(record[..], property[..], freeList, c.up, sub', h + 1, t, height, usable)
    {
      var left, right := LeftChild(block), RightChild(block);
      EmptyMeansFree(record[..], c, sub, h, usable);
      var llen := LengthOf(left, InLeft(c.up, Absent), h);
      var rlen := LengthOf(right, InRight(c.up, Absent), h);
      if record[left] == llen && record[right] == rlen {
        MergePair(block, left, right, c.up, h);
        FoldMerged(record[..], property[..], freeList, c, sub, h, t, height, usable);
        return Free;
      } else {
        ghost var rec := record[..];
        UpStep(rec, c, sub, h);
        record[block] := Or(record[left], record[right]);
        assert record[..] == rec[block := Or(rec[left], rec[right])];
        FoldJoined(record[..], property[..], freeList, c, sub, h, t, height, usable);
        return Beside(c, sub);
      }
    }

    // Replace two free neighbours by the free block they make up.
    method MergePair(block: nat, left: nat, right: nat, ghost u: Ctx, ghost h: nat)
      requires Shape() && block == Index(u) && Depth(u) + h + 1 == height
      requires left == LeftChild(block) && right == RightChild(block) && right < record.Length
      requires record[left] == Exp2(h) && RepCtx(record[..], u, h + 1)
      requires Listed(freeList, property[..], Plug(u, Split(Free, Free)), height)
      modifies this`freeList, record, property
      ensures RepCtx(record[..], u, h + 1) && Rep(record[..], block, Free, h + 1)
      ensures Listed(freeList, property[..], Plug(u, Free), height)
    {
      ghost var rec, prop, list := record[..], property[..], freeList;
      var lbegin := BeginOf(left, InLeft(u, Absent), h);
      var rbegin := BeginOf(right, InRight(u, Absent), h);
      Merged(rec, prop, list, u, h + 1, height, lbegin, rbegin, record[left] + record[left]);
      Relink(block, lbegin, rbegin, record[left] + record[left]);
    }

    // Take two blocks off the free list and enter the one they make up.
    method Relink(block: nat, lbegin: nat, rbegin: nat, length: nat)
      requires record != property && block < record.Length && lbegin < property.Length
      modifies this`freeList, record, property
      ensures record[..] == old(record[..])[block := length]
      ensures property[..] == old(property[..])[lbegin := length]
      ensures freeList == [lbegin] + Del(Del(old(freeList), lbegin), rbegin)
    {
      freeList := Del(freeList, lbegin);
      freeList := Del(freeList, rbegin);
      Mark(block, lbegin, length);
      freeList := [lbegin] + freeList;
    }
  }
}
