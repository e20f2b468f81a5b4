// Skew heaps as trees of entries: what merging and removing do to the shape,
// the order and the set of entries, and what they cost
// (lab8/libs/skew_heap.h).

module SkewTree {
  import opened Arith
  import opened Bits

  datatype Tree<E> = Leaf | Branch(elem: E, left: Tree<E>, right: Tree<E>)

  // A comparator answers -1 exactly when its first argument is strictly less.
  type Compare<!E> = (E, E) -> int

  function Size<E>(t: Tree<E>): nat {
    match t
    case Leaf => 0
    case Branch(_, l, r) => Size(l) + Size(r) + 1
  }

  function Elems<E>(t: Tree<E>): set<E> {
    match t
    case Leaf => {}
    case Branch(e, l, r) => Elems(l) + {e} + Elems(r)
  }

  // No entry occurs twice.
  ghost predicate Distinct<E>(t: Tree<E>) {
    match t
    case Leaf => true
    case Branch(e, l, r) =>
      && e !in Elems(l) && e !in Elems(r) && Elems(l) !! Elems(r)
      && Distinct(l) && Distinct(r)
  }

  ghost predicate NotLess<E>(comp: Compare<E>, x: E, y: E) {
    comp(x, y) != -1
  }

  // On the entries s the comparator is a total preorder.
  ghost predicate Preorder<E>(comp: Compare<E>, s: set<E>) {
    && (forall x, y :: x in s && y in s && comp(x, y) == -1 ==> NotLess(comp, y, x))
    && (forall x, y, z ::
          (x in s && y in s && z in s && NotLess(comp, x, y) && NotLess(comp, y, z)) ==> NotLess(comp, x, z))
  }

  // No entry is less than the one above it.
  ghost predicate Ordered<E>(t: Tree<E>, comp: Compare<E>) {
    match t
    case Leaf => true
    case Branch(e, l, r) =>
      && (l.Branch? ==> NotLess(comp, l.elem, e))
      && (r.Branch? ==> NotLess(comp, r.elem, e))
      && Ordered(l, comp) && Ordered(r, comp)
  }

  lemma {:induction false} RootIsMinimum<E>(t: Tree<E>, comp: Compare<E>, x: E)
    requires Ordered(t, comp) && Preorder(comp, Elems(t)) && x in Elems(t)
    ensures NotLess(comp, x, t.elem)
    decreases t
  {
    if x != t.elem {
      if x in Elems(t.left) {
        RootIsMinimum(t.left, comp, x);
        assert t.left.elem in Elems(t);
      } else {
        RootIsMinimum(t.right, comp, x);
        assert t.right.elem in Elems(t);
      }
    }
  }

  // ---------- Merging ----------

  function Merge<E>(a: Tree<E>, b: Tree<E>, comp: Compare<E>): Tree<E>
    decreases Size(a) + Size(b)
  {
    if a.Leaf? then b
    else if b.Leaf? then a
    else if comp(a.elem, b.elem) == -1 then Branch(a.elem, Merge(a.right, b, comp), a.left)
    else Branch(b.elem, Merge(a, b.right, comp), b.left)
  }

  lemma {:induction false} MergeElems<E>(a: Tree<E>, b: Tree<E>, comp: Compare<E>)
    ensures Elems(Merge(a, b, comp)) == Elems(a) + Elems(b)
    ensures Size(Merge(a, b, comp)) == Size(a) + Size(b)
    decreases Size(a) + Size(b)
  {
    if a.Branch? && b.Branch? {
      if comp(a.elem, b.elem) == -1 {
        MergeElems(a.right, b, comp);
      } else {
        MergeElems(a, b.right, comp);
      }
    }
  }

  lemma {:induction false} MergeDistinct<E>(a: Tree<E>, b: Tree<E>, comp: Compare<E>)
    requires Distinct(a) && Distinct(b) && Elems(a) !! Elems(b)
    ensures Distinct(Merge(a, b, comp))
    decreases Size(a) + Size(b)
  {
    if a.Branch? && b.Branch? {
      if comp(a.elem, b.elem) == -1 {
        MergeDistinct(a.right, b, comp);
        MergeElems(a.right, b, comp);
      } else {
        MergeDistinct(a, b.right, comp);
        MergeElems(a, b.right, comp);
      }
    }
  }

  // The root of a merge is one of the two roots.
  lemma {:induction false} MergeRoot<E>(a: Tree<E>, b: Tree<E>, comp: Compare<E>)
    requires a.Branch? || b.Branch?
    ensures Merge(a, b, comp).Branch?
    ensures var e := Merge(a, b, comp).elem; (a.Branch? && e == a.elem) || (b.Branch? && e == b.elem)
  {
  }

  lemma {:induction false} PreorderSubset<E>(comp: Compare<E>, s: set<E>, s': set<E>)
    requires Preorder(comp, s) && s' <= s
    ensures Preorder(comp, s')
  {
  }

  lemma {:induction false} MergeOrdered<E>(a: Tree<E>, b: Tree<E>, comp: Compare<E>)
    requires Ordered(a, comp) && Ordered(b, comp) && Preorder(comp, Elems(a) + Elems(b))
    ensures Ordered(Merge(a, b, comp), comp)
    decreases Size(a) + Size(b)
  {
    if a.Branch? && b.Branch? {
      assert a.elem in Elems(a) + Elems(b) && b.elem in Elems(a) + Elems(b);
      if comp(a.elem, b.elem) == -1 {
        PreorderSubset(comp, Elems(a) + Elems(b), Elems(a.right) + Elems(b));
        MergeOrdered(a.right, b, comp);
        MergeRoot(a.right, b, comp);
      } else {
        PreorderSubset(comp, Elems(a) + Elems(b), Elems(a) + Elems(b.right));
        MergeOrdered(a, b.right, comp);
        MergeRoot(a, b.right, comp);
      }
    }
  }

  ghost predicate NoneLess<E>(t: Tree<E>, comp: Compare<E>, x: E) {
    forall y :: y in Elems(t) ==> NotLess(comp, y, x)
  }

  // The root of b is the root of the merge exactly when no entry of a is less,
  // so on ties the second heap wins; whichever it is, its left subtree becomes
  // the right one and its right subtree goes on to be merged, to the left.
  lemma {:induction false} MergeExact<E>(a: Tree<E>, b: Tree<E>, comp: Compare<E>)
    requires a.Branch? && b.Branch? && Ordered(a, comp) && Preorder(comp, Elems(a) + Elems(b))
    ensures Merge(a, b, comp) ==
      if NoneLess(a, comp, b.elem) then Branch(b.elem, Merge(a, b.right, comp), b.left)
      else Branch(a.elem, Merge(a.right, b, comp), a.left)
  {
    assert a.elem in Elems(a);
    if comp(a.elem, b.elem) != -1 {
      PreorderSubset(comp, Elems(a) + Elems(b), Elems(a));
      forall y | y in Elems(a) ensures NotLess(comp, y, b.elem) {
        RootIsMinimum(a, comp, y);
        assert y in Elems(a) + Elems(b) && a.elem in Elems(a) + Elems(b) && b.elem in Elems(a) + Elems(b);
      }
    }
  }

  // ---------- Replacing a subtree ----------

  // The subtree below entry x.
  function Sub<E(==)>(t: Tree<E>, x: E): Tree<E> {
    if t.Leaf? then Leaf
    else if t.elem == x then t
    else if x in Elems(t.left) then Sub(t.left, x)
    else Sub(t.right, x)
  }

  function Replace<E(==)>(t: Tree<E>, x: E, m: Tree<E>): Tree<E> {
    if t.Leaf? then Leaf
    else if t.elem == x then m
    else if x in Elems(t.left) then Branch(t.elem, Replace(t.left, x, m), t.right)
    else Branch(t.elem, t.left, Replace(t.right, x, m))
  }

  function Remove<E(==)>(t: Tree<E>, x: E, comp: Compare<E>): Tree<E>
    requires x in Elems(t)
  {
    SubIsBranch(t, x);
    var s := Sub(t, x);
    Replace(t, x, Merge(s.left, s.right, comp))
  }

  lemma {:induction false} SubIsBranch<E>(t: Tree<E>, x: E)
    requires x in Elems(t)
    ensures Sub(t, x).Branch? && Sub(t, x).elem == x && Elems(Sub(t, x)) <= Elems(t)
    ensures Size(Sub(t, x)) <= Size(t)
    decreases t
  {
    if t.elem != x {
      if x in Elems(t.left) {
        SubIsBranch(t.left, x);
      } else {
        SubIsBranch(t.right, x);
      }
    }
  }

  lemma {:induction false} SubKeeps<E>(t: Tree<E>, x: E, comp: Compare<E>)
    requires x in Elems(t)
    ensures Distinct(t) ==> Distinct(Sub(t, x))
    ensures Ordered(t, comp) ==> Ordered(Sub(t, x), comp)
    decreases t
  {
    if t.elem != x {
      if x in Elems(t.left) {
        SubKeeps(t.left, x, comp);
      } else {
        SubKeeps(t.right, x, comp);
      }
    }
  }

  lemma {:induction false} ReplaceElems<E>(t: Tree<E>, x: E, m: Tree<E>)
    requires Distinct(t) && x in Elems(t) && Elems(m) <= Elems(Sub(t, x))
    ensures Elems(Replace(t, x, m)) == Elems(t) - Elems(Sub(t, x)) + Elems(m)
    decreases t
  {
    SubIsBranch(t, x);
    if t.elem != x {
      var c := if x in Elems(t.left) then t.left else t.right;
      SubIsBranch(c, x);
      ReplaceElems(c, x, m);
    }
  }

  lemma {:induction false} ReplaceDistinct<E>(t: Tree<E>, x: E, m: Tree<E>)
    requires Distinct(t) && x in Elems(t) && Elems(m) <= Elems(Sub(t, x)) && Distinct(m)
    ensures Distinct(Replace(t, x, m))
    decreases t
  {
    if t.elem != x {
      var c := if x in Elems(t.left) then t.left else t.right;
      SubIsBranch(c, x);
      ReplaceElems(c, x, m);
      ReplaceDistinct(c, x, m);
    }
  }

  // Removing any entry takes away exactly that entry.
  lemma {:induction false} RemoveElems<E>(t: Tree<E>, x: E, comp: Compare<E>)
    requires Distinct(t) && x in Elems(t)
    ensures Elems(Remove(t, x, comp)) == Elems(t) - {x} && Distinct(Remove(t, x, comp))
  {
    SubIsBranch(t, x);
    SubKeeps(t, x, comp);
    var s := Sub(t, x);
    MergeElems(s.left, s.right, comp);
    MergeDistinct(s.left, s.right, comp);
    ReplaceElems(t, x, Merge(s.left, s.right, comp));
    ReplaceDistinct(t, x, Merge(s.left, s.right, comp));
  }

  // A replacement whose root is no less than the entry it replaces keeps order.
  lemma {:induction false} ReplaceOrdered<E>(t: Tree<E>, x: E, m: Tree<E>, comp: Compare<E>)
    requires Ordered(t, comp) && x in Elems(t) && Preorder(comp, Elems(t))
    requires Ordered(m, comp) && Elems(m) <= Elems(Sub(t, x))
    requires m.Branch? ==> NotLess(comp, m.elem, x)
    ensures Ordered(Replace(t, x, m), comp)
    decreases t
  {
    if t.elem != x {
      var c := if x in Elems(t.left) then t.left else t.right;
      SubIsBranch(c, x);
      PreorderSubset(comp, Elems(t), Elems(c));
      ReplaceOrdered(c, x, m, comp);
      if m.Branch? {
        assert m.elem in Elems(t) && x in Elems(t) && t.elem in Elems(t);
      }
    }
  }

  // Removing any entry keeps heap order.
  lemma {:induction false} RemoveOrdered<E>(t: Tree<E>, x: E, comp: Compare<E>)
    requires Ordered(t, comp) && x in Elems(t) && Preorder(comp, Elems(t))
    ensures Ordered(Remove(t, x, comp), comp)
  {
    SubIsBranch(t, x);
    SubKeeps(t, x, comp);
    var s := Sub(t, x);
    var m := Merge(s.left, s.right, comp);
    PreorderSubset(comp, Elems(t), Elems(s.left) + Elems(s.right));
    MergeOrdered(s.left, s.right, comp);
    MergeElems(s.left, s.right, comp);
    if m.Branch? {
      MergeRoot(s.left, s.right, comp);
    }
    ReplaceOrdered(t, x, m, comp);
  }

  // ---------- Cost ----------

  // Calls made by skew_heap_merge.
  function MergeCost<E>(a: Tree<E>, b: Tree<E>, comp: Compare<E>): nat
    decreases Size(a) + Size(b)
  {
    if a.Leaf? || b.Leaf? then 1
    else if comp(a.elem, b.elem) == -1 then MergeCost(a.right, b, comp) + 1
    else MergeCost(a, b.right, comp) + 1
  }

  // Entries on the way down to the right.
  function Ribs<E>(t: Tree<E>): nat {
    if t.Leaf? then 0 else Ribs(t.right) + 1
  }

  // Every call but the last takes one entry off the right edge of one heap, and
  // the last is made when one of them is used up.
  lemma {:induction false} CostBetween<E>(a: Tree<E>, b: Tree<E>, comp: Compare<E>)
    ensures MergeCost(a, b, comp) <= Ribs(a) + Ribs(b) + 1
    ensures MergeCost(a, b, comp) > Ribs(a) || MergeCost(a, b, comp) > Ribs(b)
    decreases Size(a) + Size(b)
  {
    if a.Branch? && b.Branch? {
      if comp(a.elem, b.elem) == -1 {
        CostBetween(a.right, b, comp);
      } else {
        CostBetween(a, b.right, comp);
      }
    }
  }

  function Heavy<E>(t: Tree<E>): nat {
    if t.Branch? && Size(t.right) > Size(t.left) then 1 else 0
  }

  // Number of entries with more below them on the right than on the left.
  function Potential<E>(t: Tree<E>): nat {
    match t
    case Leaf => 0
    case Branch(_, l, r) => Potential(l) + Potential(r) + Heavy(t)
  }

  // Floor of the binary logarithm of n + 1.
  function Lg(n: nat): nat {
    if n == 0 then 0 else Lg(Half(n - 1)) + 1
  }

  lemma {:induction false} LgIsLogarithm(n: nat)
    ensures Exp2(Lg(n)) <= n + 1 < Exp2(Lg(n) + 1)
    decreases n
  {
    if n > 0 {
      LgIsLogarithm(Half(n - 1));
    }
  }

  lemma {:induction false} LgMonotone(m: nat, n: nat)
    requires m <= n
    ensures Lg(m) <= Lg(n)
    decreases n
  {
    if m > 0 {
      LgMonotone(Half(m - 1), Half(n - 1));
    }
  }

  lemma {:induction false} LgHalf(m: nat, n: nat)
    requires m + m < n
    ensures Lg(m) + 1 <= Lg(n)
  {
    LgMonotone(m, Half(n - 1));
  }

  // Going right below a light entry halves the size; going right below a heavy
  // one uses up its potential. So merging is logarithmic, amortised.
  lemma {:induction false} MergeAmortised<E>(a: Tree<E>, b: Tree<E>, comp: Compare<E>)
    ensures MergeCost(a, b, comp) + Potential(Merge(a, b, comp))
         <= Potential(a) + Potential(b) + (Lg(Size(a)) + Lg(Size(a))) + (Lg(Size(b)) + Lg(Size(b))) + 1
    decreases Size(a) + Size(b)
  {
    if a.Branch? && b.Branch? {
      if comp(a.elem, b.elem) == -1 {
        MergeAmortised(a.right, b, comp);
        MergeElems(a.right, b, comp);
        RightStep(a);
      } else {
        MergeAmortised(a, b.right, comp);
        MergeElems(a, b.right, comp);
        RightStep(b);
      }
    }
  }

  lemma {:induction false} RightStep<E>(t: Tree<E>)
    requires t.Branch?
    ensures Lg(Size(t.right)) <= Lg(Size(t))
    ensures Heavy(t) == 0 ==> Lg(Size(t.right)) + 1 <= Lg(Size(t))
  {
    LgMonotone(Size(t.right), Size(t));
    if Heavy(t) == 0 {
      LgHalf(Size(t.right), Size(t));
    }
  }

  lemma {:induction false} ReplaceSize<E>(t: Tree<E>, x: E, m: Tree<E>)
    requires x in Elems(t) && Size(m) + 1 == Size(Sub(t, x))
    ensures Size(Replace(t, x, m)) + 1 == Size(t)
    decreases t
  {
    if t.elem != x {
      ReplaceSize(if x in Elems(t.left) then t.left else t.right, x, m);
    }
  }

  // Above a subtree that loses one entry only an entry with equally many on its
  // two sides becomes heavy, and sizes halve from one of those to the next.
  lemma {:induction false} ReplaceAmortised<E>(t: Tree<E>, x: E, m: Tree<E>)
    requires x in Elems(t) && Size(m) + 1 == Size(Sub(t, x))
    ensures Potential(Replace(t, x, m)) + Potential(Sub(t, x)) <= Potential(t) + Potential(m) + Lg(Size(t))
    decreases t
  {
    if t.elem != x {
      var c := if x in Elems(t.left) then t.left else t.right;
      ReplaceSize(c, x, m);
      ReplaceAmortised(c, x, m);
      LgMonotone(Size(c), Size(t));
      if Size(t.left) == Size(t.right) {
        LgHalf(Size(c), Size(t));
      }
    }
  }

  // ---------- Runs ----------

  // Inserting an entry and removing one, wherever it sits.
  datatype Change<E> = Add(elem: E) | Delete(elem: E)

  ghost function Step<E>(t: Tree<E>, c: Change<E>, comp: Compare<E>): Tree<E> {
    match c
    case Add(e) => Merge(t, Branch(e, Leaf, Leaf), comp)
    case Delete(e) => if e in Elems(t) then Remove(t, e, comp) else t
  }

  // Calls of skew_heap_merge made by one change.
  ghost function StepCost<E>(t: Tree<E>, c: Change<E>, comp: Compare<E>): nat {
    match c
    case Add(e) => MergeCost(t, Branch(e, Leaf, Leaf), comp)
    case Delete(e) =>
      if e in Elems(t) then
        SubIsBranch(t, e);
        MergeCost(Sub(t, e).left, Sub(t, e).right, comp)
      else 0
  }

  // A new entry becomes the root, above all the others, exactly when none of
  // them is less.
  lemma {:induction false} InsertExact<E>(t: Tree<E>, e: E, comp: Compare<E>)
    requires t.Branch? && Ordered(t, comp) && Preorder(comp, Elems(t) + {e})
    ensures var t' := Step(t, Add(e), comp);
      if NoneLess(t, comp, e) then t' == Branch(e, t, Leaf) else t'.elem == t.elem && t'.right == t.left
  {
    var s := Branch(e, Leaf, Leaf);
    assert Elems(s) == {e};
    MergeExact(t, s, comp);
  }

  // Removing the root merges its two subtrees.
  lemma {:induction false} RemoveRoot<E>(t: Tree<E>, comp: Compare<E>)
    requires t.Branch?
    ensures Step(t, Delete(t.elem), comp) == Merge(t.left, t.right, comp)
    ensures StepCost(t, Delete(t.elem), comp) == MergeCost(t.left, t.right, comp)
    ensures t.left.Leaf? ==> Step(t, Delete(t.elem), comp) == t.right
    ensures t.right.Leaf? ==> Step(t, Delete(t.elem), comp) == t.left
  {
    assert t.elem in Elems(t);
  }

  ghost function Changed<E>(t: Tree<E>, changes: seq<Change<E>>, comp: Compare<E>): Tree<E>
    decreases |changes|
  {
    if changes == [] then t else Changed(Step(t, changes[0], comp), changes[1..], comp)
  }

  ghost function RunCost<E>(t: Tree<E>, changes: seq<Change<E>>, comp: Compare<E>): nat
    decreases |changes|
  {
    if changes == [] then 0
    else StepCost(t, changes[0], comp) + RunCost(Step(t, changes[0], comp), changes[1..], comp)
  }

  // What one change is charged on a heap of at most n entries.
  function Charge(n: nat): nat {
    Lg(n) + Lg(n) + Lg(n) + Lg(n) + Lg(n) + 3
  }

  lemma {:induction false} RemoveAmortised<E>(t: Tree<E>, x: E, comp: Compare<E>, n: nat)
    requires x in Elems(t) && Size(t) <= n
    ensures Size(Remove(t, x, comp)) + 1 == Size(t)
    ensures StepCost(t, Delete(x), comp) + Potential(Remove(t, x, comp)) <= Potential(t) + Charge(n)
  {
    SubIsBranch(t, x);
    var s := Sub(t, x);
    var m := Merge(s.left, s.right, comp);
    MergeElems(s.left, s.right, comp);
    MergeAmortised(s.left, s.right, comp);
    ReplaceSize(t, x, m);
    ReplaceAmortised(t, x, m);
    LgMonotone(Size(t), n);
    LgMonotone(Size(s.left), n);
    LgMonotone(Size(s.right), n);
  }

  lemma {:induction false} StepAmortised<E>(t: Tree<E>, c: Change<E>, comp: Compare<E>, n: nat)
    requires Size(t) <= n
    ensures StepCost(t, c, comp) + Potential(Step(t, c, comp)) <= Potential(t) + Charge(n)
    ensures Size(Step(t, c, comp)) <= Size(t) + 1
  {
    match c
    case Add(e) =>
      var s := Branch(e, Leaf, Leaf);
      MergeAmortised(t, s, comp);
      MergeElems(t, s, comp);
      LgMonotone(Size(t), n);
      assert Lg(1) == 1;
    case Delete(e) =>
      if e in Elems(t) {
        RemoveAmortised(t, e, comp, n);
      }
  }

  lemma {:induction false} RunAmortised<E>(t: Tree<E>, changes: seq<Change<E>>, comp: Compare<E>, n: nat)
    requires Size(t) + |changes| <= n
    ensures RunCost(t, changes, comp) <= Potential(t) + Times(|changes|, Charge(n))
    decreases |changes|
  {
    if changes != [] {
      StepAmortised(t, changes[0], comp, n);
      RunAmortised(Step(t, changes[0], comp), changes[1..], comp, n);
    }
  }

  // Any m inserts and removals, of whatever entries, from the empty heap make at
  // most m * (5 * log2(m + 1) + 3) calls of skew_heap_merge.
  lemma {:induction false} RunIsLogarithmic<E>(changes: seq<Change<E>>, comp: Compare<E>)
    ensures RunCost(Leaf, changes, comp) <= |changes| * Charge(|changes|)
  {
    RunAmortised(Leaf, changes, comp, |changes|);
    TimesIsProduct(|changes|, Charge(|changes|));
  }

  // The entries in the heap after some changes to a heap holding s.
  function Live<E>(s: set<E>, changes: seq<Change<E>>): set<E>
    decreases |changes|
  {
    if changes == [] then s
    else match changes[0]
      case Add(e) => Live(s + {e}, changes[1..])
      case Delete(e) => Live(s - {e}, changes[1..])
  }

  // Only absent entries of `all` are added, only present ones deleted.
  ghost predicate Legal<E>(s: set<E>, changes: seq<Change<E>>, all: set<E>)
    decreases |changes|
  {
    changes == [] ||
    match changes[0]
    case Add(e) => e in all && e !in s && Legal(s + {e}, changes[1..], all)
    case Delete(e) => e in s && Legal(s - {e}, changes[1..], all)
  }

  // Whatever is added and removed, and wherever it sits, the heap holds exactly
  // the entries added and not removed, in order.
  lemma {:induction false} ChangedKeeps<E>(t: Tree<E>, changes: seq<Change<E>>, comp: Compare<E>, all: set<E>)
    requires Distinct(t) && Ordered(t, comp) && Elems(t) <= all && Preorder(comp, all)
    requires Legal(Elems(t), changes, all)
    ensures var t' := Changed(t, changes, comp);
      Elems(t') == Live(Elems(t), changes) && Distinct(t') && Ordered(t', comp) && Elems(t') <= all
    decreases |changes|
  {
    if changes != [] {
      match changes[0]
      case Add(e) =>
        var s := Branch(e, Leaf, Leaf);
        assert Elems(s) == {e};
        MergeElems(t, s, comp);
        MergeDistinct(t, s, comp);
        PreorderSubset(comp, all, Elems(t) + Elems(s));
        MergeOrdered(t, s, comp);
        ChangedKeeps(Merge(t, s, comp), changes[1..], comp, all);
      case Delete(e) =>
        RemoveElems(t, e, comp);
        PreorderSubset(comp, all, Elems(t));
        RemoveOrdered(t, e, comp);
        ChangedKeeps(Remove(t, e, comp), changes[1..], comp, all);
    }
  }

  // After any such run from the empty heap the root is a minimum.
  lemma {:induction false} RunMinimum<E>(changes: seq<Change<E>>, comp: Compare<E>, all: set<E>, x: E)
    requires Preorder(comp, all) && Legal({}, changes, all) && x in Live({}, changes)
    ensures Changed(Leaf, changes, comp).Branch?
    ensures NotLess(comp, x, Changed(Leaf, changes, comp).elem)
  {
    ChangedKeeps(Leaf, changes, comp, all);
    var t := Changed(Leaf, changes, comp);
    PreorderSubset(comp, all, Elems(t));
    RootIsMinimum(t, comp, x);
  }
}
