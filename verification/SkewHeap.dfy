// The pointer skew heap of lab8/libs/skew_heap.h: every method is tied to the
// operation on trees that it performs in place.

module SkewHeap {
  import opened SkewTree

  class Entry {
    var parent: Entry?
    var left: Entry?
    var right: Entry?

    // skew_heap_init
    constructor ()
      ensures parent == null && left == null && right == null
    {
      parent, left, right := null, null, null;
    }
  }

  // The pointers from p on spell out the tree t, with parent pointers below
  // the root leading back up.
  ghost predicate Spells(p: Entry?, t: Tree<Entry>)
    reads Elems(t)
  {
    match t
    case Leaf => p == null
    case Branch(e, l, r) =>
      && p == e
      && Spells(e.left, l) && (l.Branch? ==> l.elem.parent == e)
      && Spells(e.right, r) && (r.Branch? ==> r.elem.parent == e)
  }

  // A whole heap: additionally the root has no parent and no entry occurs twice.
  ghost predicate Heap(p: Entry?, t: Tree<Entry>)
    reads Elems(t)
  {
    Spells(p, t) && Distinct(t) && (p != null ==> p.parent == null)
  }

  lemma {:induction false} RightSmaller(t: Tree<Entry>)
    ensures t.Branch? ==> Size(t.right) < Size(t)
  {
  }

  method Merge(a: Entry?, b: Entry?, comp: Compare<Entry>, ghost ta: Tree<Entry>, ghost tb: Tree<Entry>)
      returns (r: Entry?, ghost calls: nat)
    requires Spells(a, ta) && Spells(b, tb)
    requires Distinct(ta) && Distinct(tb) && Elems(ta) !! Elems(tb)
    modifies Elems(ta), Elems(tb)
    ensures Spells(r, SkewTree.Merge(ta, tb, comp))
    ensures r != null ==> r.parent == old(r.parent)
    ensures calls == MergeCost(ta, tb, comp)
    decreases Size(ta) + Size(tb)
  {
    hide Size;
    if a == null {
      return b, 1;
    } else if b == null {
      return a, 1;
    }
    RightSmaller(ta);
    RightSmaller(tb);
    MergeElems(ta, tb, comp);
    MergeDistinct(ta, tb, comp);
    if comp(a, b) == -1 {
      var l, r := null, a.left;
      assert allocated(Elems(ta.left));
      l, calls := Merge(a.right, b, comp, ta.right, tb);
      MergeElems(ta.right, tb, comp);
      MergeDistinct(ta.right, tb, comp);
      assert Spells(r, ta.left);
      Attach(a, l, r, SkewTree.Merge(ta.right, tb, comp), ta.left);
      return a, calls + 1;
    } else {
      var l, r := null, b.left;
      assert allocated(Elems(tb.left));
      l, calls := Merge(a, b.right, comp, ta, tb.right);
      MergeElems(ta, tb.right, comp);
      MergeDistinct(ta, tb.right, comp);
      assert Spells(r, tb.left);
      Attach(b, l, r, SkewTree.Merge(ta, tb.right, comp), tb.left);
      return b, calls + 1;
    }
  }

  // The assignments after the recursive call: l and r become the children of n,
  // where r is a child of n already.
  method Attach(n: Entry, l: Entry?, r: Entry?, ghost tl: Tree<Entry>, ghost tr: Tree<Entry>)
    requires Spells(l, tl) && Spells(r, tr) && (r != null ==> r.parent == n)
    requires Distinct(Branch(n, tl, tr))
    modifies n`left, n`right, Elems(tl)
    ensures Spells(n, Branch(n, tl, tr)) && n.parent == old(n.parent)
  {
    n.left := l;
    n.right := r;
    if l != null {
      assert Spells(l.left, tl.left) && Spells(l.right, tl.right);
      l.parent := n;
      assert Spells(l.left, tl.left) && Spells(l.right, tl.right);
    }
  }

  method Insert(a: Entry?, b: Entry, comp: Compare<Entry>, ghost t: Tree<Entry>) returns (r: Entry, ghost calls: nat)
    requires Heap(a, t) && b !in Elems(t)
    modifies Elems(t), b
    ensures Heap(r, Step(t, Add(b), comp))
    ensures calls == StepCost(t, Add(b), comp)
  {
    b.left, b.right, b.parent := null, null, null;
    ghost var s := Branch(b, Leaf, Leaf);
    assert Elems(s) == {b};
    var m;
    m, calls := Merge(a, b, comp, t, s);
    MergeRoot(t, s, comp);
    MergeDistinct(t, s, comp);
    r := m;
  }

  // ---------- Removing any entry ----------

  // Where the parent pointer of entry x leads.
  ghost function ParentOf(t: Tree<Entry>, x: Entry): Entry?
  {
    if t.Leaf? || t.elem == x then null
    else
      var c := if x in Elems(t.left) then t.left else t.right;
      if c.Branch? && c.elem == x then t.elem else ParentOf(c, x)
  }

  lemma {:induction false} RootOutside(t: Tree<Entry>, x: Entry)
    requires Distinct(t) && x in Elems(t)
    ensures Elems(Sub(t, x)) <= Elems(t)
    ensures t.elem != x ==> t.elem !in Elems(Sub(t, x))
  {
    SubIsBranch(t, x);
    if t.elem != x {
      SubIsBranch(if x in Elems(t.left) then t.left else t.right, x);
    }
  }

  // The pointers of t outside the subtree of x; in its place they lead to x.
  ghost predicate Around(q: Entry?, t: Tree<Entry>, x: Entry)
    requires x in Elems(t) && Distinct(t)
    reads Elems(t) - Elems(Sub(t, x))
  {
    RootOutside(t, x);
    if t.elem == x then q == x
    else if x in Elems(t.left) then
      RootOutside(t.left, x);
      && q == t.elem
      && Around(q.left, t.left, x) && (t.left.elem != x ==> t.left.elem.parent == q)
      && Spells(q.right, t.right) && (t.right.Branch? ==> t.right.elem.parent == q)
    else
      RootOutside(t.right, x);
      && q == t.elem
      && Around(q.right, t.right, x) && (t.right.elem != x ==> t.right.elem.parent == q)
      && Spells(q.left, t.left) && (t.left.Branch? ==> t.left.elem.parent == q)
  }

  // Cutting a heap at x.
  lemma {:induction false} Cut(q: Entry?, t: Tree<Entry>, x: Entry)
    requires Spells(q, t) && Distinct(t) && x in Elems(t)
    ensures Around(q, t, x) && Spells(x, Sub(t, x))
    ensures x != t.elem ==> x.parent == ParentOf(t, x)
    decreases t
  {
    if t.elem != x {
      if x in Elems(t.left) {
        Cut(q.left, t.left, x);
      } else {
        Cut(q.right, t.right, x);
      }
    }
  }

  // Putting back a tree with the same root.
  lemma {:induction false} Paste(q: Entry?, t: Tree<Entry>, x: Entry, s: Tree<Entry>)
    requires Distinct(t) && x in Elems(t) && Around(q, t, x)
    requires s.Branch? && s.elem == x && Spells(x, s)
    requires x != t.elem ==> x.parent == ParentOf(t, x)
    ensures Spells(q, Replace(t, x, s))
    decreases t
  {
    if t.elem != x {
      if x in Elems(t.left) {
        Paste(q.left, t.left, x, s);
      } else {
        Paste(q.right, t.right, x, s);
      }
    }
  }

  // The side of u that holds b, and u with another tree there.
  ghost function Side(u: Tree<Entry>, b: Entry): Tree<Entry>
    requires u.Branch?
  {
    if b in Elems(u.left) then u.left else u.right
  }

  ghost function WithSide(u: Tree<Entry>, b: Entry, m: Tree<Entry>): Tree<Entry>
    requires u.Branch?
  {
    if b in Elems(u.left) then Branch(u.elem, m, u.right) else Branch(u.elem, u.left, m)
  }

  // The parent of b in t, and what replacing below b is at the parent.
  lemma {:induction false} AtParent(t: Tree<Entry>, b: Entry, m: Tree<Entry>) returns (p: Entry)
    requires Distinct(t) && b in Elems(t) && b != t.elem
    ensures p == ParentOf(t, b) && p in Elems(t) && p != b && p !in Elems(Sub(t, b))
    ensures var s := Sub(t, p);
      && s.Branch? && s.elem == p && Distinct(s) && b in Elems(s) && b != p
      && Side(s, b) == Sub(t, b) && Replace(t, b, m) == Replace(t, p, WithSide(s, b, m))
    decreases t
  {
    var c := if b in Elems(t.left) then t.left else t.right;
    if c.elem == b {
      p := t.elem;
    } else {
      p := AtParent(c, b, m);
    }
    SubIsBranch(c, b);
  }

  method Remove(a: Entry, b: Entry, comp: Compare<Entry>, ghost t: Tree<Entry>) returns (r: Entry?, ghost calls: nat)
    requires Heap(a, t) && b in Elems(t)
    modifies Elems(t)
    ensures Heap(r, Step(t, Delete(b), comp))
    ensures calls == StepCost(t, Delete(b), comp)
  {
    ghost var s := Sub(t, b);
    SubIsBranch(t, b);
    SubKeeps(t, b, comp);
    RemoveElems(t, b, comp);
    Cut(a, t, b);
    assert allocated(Elems(t));
    var p := b.parent;
    if p == null {
      assert t.elem == b by {
        if t.elem != b { var _ := AtParent(t, b, Leaf); }
      }
      r, calls := MergeChildren(b, null, comp, s);
      return;
    }
    calls := RemoveBelow(a, b, p, comp, t);
    r := a;
  }

  // The merge of b's subtrees, made a child of p.
  method MergeChildren(b: Entry, p: Entry?, comp: Compare<Entry>, ghost s: Tree<Entry>)
      returns (rep: Entry?, ghost calls: nat)
    requires Spells(b, s) && Distinct(s)
    modifies Elems(s.left), Elems(s.right)
    ensures Spells(rep, SkewTree.Merge(s.left, s.right, comp))
    ensures rep != null ==> rep.parent == p
    ensures calls == MergeCost(s.left, s.right, comp)
  {
    rep, calls := Merge(b.left, b.right, comp, s.left, s.right);
    if rep != null {
      ghost var m := SkewTree.Merge(s.left, s.right, comp);
      MergeElems(s.left, s.right, comp);
      MergeDistinct(s.left, s.right, comp);
      assert Spells(rep.left, m.left) && Spells(rep.right, m.right);
      rep.parent := p;
      assert Spells(rep.left, m.left) && Spells(rep.right, m.right);
    }
  }

  // The case of an entry with a parent, seen from the parent.
  method MergeBelow(p: Entry, b: Entry, comp: Compare<Entry>, ghost u: Tree<Entry>) returns (ghost calls: nat)
    requires Spells(p, u) && Distinct(u) && Side(u, b).Branch? && Side(u, b).elem == b
    modifies Elems(u)
    ensures var c := Side(u, b);
      && Spells(p, WithSide(u, b, SkewTree.Merge(c.left, c.right, comp))) && p.parent == old(p.parent)
      && calls == MergeCost(c.left, c.right, comp)
  {
    if p.left == b {
      LeftApart(u, b, comp);
      assert allocated(Elems(u.right));
      var rep;
      rep, calls := MergeChildren(b, p, comp, u.left);
      p.left := rep;
      assert Spells(p.right, u.right);
    } else {
      RightApart(u, b, comp);
      assert allocated(Elems(u.left));
      var rep;
      rep, calls := MergeChildren(b, p, comp, u.right);
      p.right := rep;
      assert Spells(p.left, u.left);
    }
  }

  lemma {:induction false} LeftApart(u: Tree<Entry>, b: Entry, comp: Compare<Entry>)
    requires u.Branch? && Distinct(u) && u.left.Branch? && u.left.elem == b
    ensures u.elem !in Elems(u.left) && u.elem !in Elems(u.right) && Elems(u.right) !! Elems(u.left)
    ensures Elems(SkewTree.Merge(u.left.left, u.left.right, comp)) <= Elems(u.left) && b in Elems(u.left)
  {
    MergeElems(u.left.left, u.left.right, comp);
  }

  lemma {:induction false} RightApart(u: Tree<Entry>, b: Entry, comp: Compare<Entry>)
    requires u.Branch? && Distinct(u) && u.right.Branch? && u.right.elem == b
    ensures u.elem !in Elems(u.left) && u.elem !in Elems(u.right) && Elems(u.right) !! Elems(u.left)
    ensures Elems(SkewTree.Merge(u.right.left, u.right.right, comp)) <= Elems(u.right) && b !in Elems(u.left)
  {
    MergeElems(u.right.left, u.right.right, comp);
  }

  method RemoveBelow(a: Entry, b: Entry, p: Entry, comp: Compare<Entry>, ghost t: Tree<Entry>)
      returns (ghost calls: nat)
    requires Heap(a, t) && b in Elems(t) && p == b.parent
    modifies Elems(t)
    ensures Heap(a, Step(t, Delete(b), comp))
    ensures calls == StepCost(t, Delete(b), comp)
  {
    ghost var s := Sub(t, b);
    SubIsBranch(t, b);
    RemoveElems(t, b, comp);
    Cut(a, t, b);
    assert t.elem != b;
    ghost var _ := AtParent(t, b, SkewTree.Merge(s.left, s.right, comp));
    Cut(a, t, p);
    RootOutside(t, p);
    assert allocated(Elems(t));
    ghost var u := Sub(t, p);
    calls := MergeBelow(p, b, comp, u);
    Paste(a, t, p, WithSide(u, b, SkewTree.Merge(s.left, s.right, comp)));
  }
}
