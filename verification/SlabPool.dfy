// The slabs of lab2/kern/mm/slub.c: the free chain inside a slab, the three
// lists of a cache, and what each step keeps.

module SlabPool {
  import opened Lists

  // struct slab_t, with the index table at the start of its page.
  datatype Slab = Slab(cachep: nat, inuse: nat, free: int, bufctl: seq<int>)

  datatype Kind = Full | Partial | Empty

  // The slab lists of a cache.
  datatype SlabLists = SlabLists(full: seq<nat>, partial: seq<nat>, free: seq<nat>) {
    function Of(k: Kind): seq<nat> {
      match k
      case Full => full
      case Partial => partial
      case Empty => free
    }

    // list_del, wherever the slab is, then list_add to one list.
    function Move(p: nat, k: Kind): SlabLists {
      Drop(p).Add(p, k)
    }

    function Drop(p: nat): SlabLists {
      SlabLists(Del(full, p), Del(partial, p), Del(free, p))
    }

    function Add(p: nat, k: Kind): SlabLists {
      match k
      case Full => this.(full := [p] + full)
      case Partial => this.(partial := [p] + partial)
      case Empty => this.(free := [p] + free)
    }
  }

  // An object: its page and its index there.
  datatype Object = Object(page: nat, index: nat)

  // The pages, the lists of each cache, the free chain of each slab, the pages
  // the page allocator can still give, and the objects handed out.
  datatype Pool = Pool(pages: seq<Slab>, lists: seq<SlabLists>, chains: map<nat, seq<nat>>, avail: set<nat>,
                       out: set<Object>)

  // ---------- The free chain ----------

  // Entry i of the chain; -1 ends it.
  function At(ch: seq<nat>, i: nat): int {
    if i < |ch| then ch[i] else -1
  }

  // From slab.free through the table one visits ch: num - inuse distinct
  // indices, ending in -1.
  ghost predicate Chained(s: Slab, ch: seq<nat>, num: nat) {
    && NoDup(ch) && s.inuse + |ch| == num <= |s.bufctl|
    && s.free == At(ch, 0)
    && forall i :: 0 <= i < |ch| ==> ch[i] < num && s.bufctl[ch[i]] == At(ch, i + 1)
  }

  // Unlink the first object of the chain, or put an object in front.
  function TakeObject(s: Slab): Slab
    requires 0 <= s.free < |s.bufctl|
  {
    s.(inuse := s.inuse + 1, free := s.bufctl[s.free])
  }

  function PutObject(s: Slab, i: nat): Slab
    requires i < |s.bufctl| && s.inuse > 0
  {
    s.(inuse := s.inuse - 1, free := i, bufctl := s.bufctl[i := s.free])
  }

  lemma {:induction false} TakeChained(s: Slab, ch: seq<nat>, num: nat)
    requires Chained(s, ch, num) && s.inuse < num
    ensures |ch| > 0 && s.free == ch[0] < num && Chained(TakeObject(s), ch[1..], num)
    ensures ch[0] !in ch[1..]
  {
  }

  lemma {:induction false} PutChained(s: Slab, ch: seq<nat>, num: nat, i: nat)
    requires Chained(s, ch, num) && i < num && i !in ch
    ensures s.inuse > 0 && Chained(PutObject(s, i), [i] + ch, num)
  {
    Pigeon(ch, num, i);
    var s' := PutObject(s, i);
    var ch' := [i] + ch;
    forall k | 0 <= k < |ch'| ensures ch'[k] < num && s'.bufctl[ch'[k]] == At(ch', k + 1) {
      if k > 0 {
        assert ch'[k] == ch[k - 1];
        assert At(ch', k + 1) == At(ch, k);
      }
    }
  }

  // Distinct indices below num that leave one out are fewer than num.
  lemma {:induction false} Pigeon(ch: seq<nat>, num: nat, i: nat)
    requires NoDup(ch) && (forall k :: 0 <= k < |ch| ==> ch[k] < num) && i < num && i !in ch
    ensures |ch| < num
  {
    var s := set k | 0 <= k < |ch| :: ch[k];
    SizeOf(ch, s);
    SizeBelow(s + {i}, num);
  }

  lemma {:induction false} SizeOf(ch: seq<nat>, s: set<nat>)
    requires NoDup(ch) && forall x :: x in s <==> x in ch
    ensures |s| == |ch|
    decreases |ch|
  {
    if |ch| == 0 {
      assert s == {};
    } else {
      var x := ch[0];
      forall y ensures y in s - {x} <==> y in ch[1..] {
        assert ch == [x] + ch[1..];
      }
      SizeOf(ch[1..], s - {x});
    }
  }

  lemma {:induction false} SizeBelow(s: set<nat>, num: nat)
    requires forall x :: x in s ==> x < num
    ensures |s| <= num
    decreases num
  {
    if num > 0 {
      SizeBelow(s - {num - 1}, num - 1);
    } else {
      assert s == {};
    }
  }

  // ---------- The chain of a new slab ----------

  function Upto(n: nat): (ch: seq<nat>)
    ensures |ch| == n && forall i :: 0 <= i < n ==> ch[i] == i
  {
    if n == 0 then [] else Upto(n - 1) + [n - 1]
  }

  ghost predicate Threaded(table: seq<int>, num: nat) {
    |table| >= num && forall i :: 0 <= i < num ==> table[i] == if i + 1 < num then i + 1 else -1
  }

  lemma {:induction false} NewChained(c: nat, table: seq<int>, num: nat)
    requires Threaded(table, num) && num > 0
    ensures Chained(Slab(c, 0, 0, table), Upto(num), num)
  {
  }

  // ---------- The pool ----------

  function KindOf(inuse: nat, num: nat): Kind {
    if inuse == num then Full else if inuse == 0 then Empty else Partial
  }

  ghost predicate SlabsSound(s: Pool, nums: seq<nat>) {
    forall p :: p in s.chains ==>
      && p < |s.pages| && s.pages[p].cachep < |nums|
      && Chained(s.pages[p], s.chains[p], nums[s.pages[p].cachep])
  }

  // Page p is a slab of cache c with so many objects in use.
  ghost predicate IsSlab(s: Pool, nums: seq<nat>, p: nat, c: nat, k: Kind)
    requires c < |nums|
  {
    p in s.chains && p < |s.pages| && s.pages[p].cachep == c && KindOf(s.pages[p].inuse, nums[c]) == k
  }

  // Each slab is in the one list of its cache that its count of objects in use calls for.
  ghost predicate Filed(s: Pool, nums: seq<nat>) {
    && |s.lists| == |nums|
    && (forall c, k :: 0 <= c < |nums| ==> NoDup(s.lists[c].Of(k)))
    && (forall c, k, p :: 0 <= c < |nums| ==> (p in s.lists[c].Of(k) <==> IsSlab(s, nums, p, c, k)))
  }

  ghost predicate OffChain(s: Pool, nums: seq<nat>, o: Object) {
    && o.page in s.chains && o.page < |s.pages| && s.pages[o.page].cachep < |nums|
    && o.index < nums[s.pages[o.page].cachep] && o.index !in s.chains[o.page]
  }

  // An object is handed out exactly if it is not on its slab's chain.
  ghost predicate OutExact(s: Pool, nums: seq<nat>) {
    forall o: Object :: o in s.out <==> OffChain(s, nums, o)
  }

  // A page is available or a slab, not both.
  ghost predicate PagesSplit(s: Pool) {
    forall p :: p in s.avail ==> p < |s.pages| && p !in s.chains
  }

  ghost predicate Good(s: Pool, nums: seq<nat>) {
    && (forall c :: 0 <= c < |nums| ==> nums[c] > 0)
    && SlabsSound(s, nums) && Filed(s, nums) && OutExact(s, nums) && PagesSplit(s)
  }

  // ---------- Refiling a slab ----------

  ghost predicate ListsSound(ls: SlabLists) {
    forall k :: NoDup(ls.Of(k))
  }

  lemma {:induction false} DropMember(ls: SlabLists, p: nat, k: Kind, y: nat)
    requires ListsSound(ls)
    ensures ListsSound(ls.Drop(p))
    ensures y in ls.Drop(p).Of(k) <==> y in ls.Of(k) && y != p
  {
    assert ls.Of(Full) == ls.full && ls.Of(Partial) == ls.partial && ls.Of(Empty) == ls.free;
    DelMember(ls.full, p, y);
    DelMember(ls.partial, p, y);
    DelMember(ls.free, p, y);
    DelNoDup(ls.full, p);
    DelNoDup(ls.partial, p);
    DelNoDup(ls.free, p);
  }

  lemma {:induction false} MoveMember(ls: SlabLists, p: nat, k: Kind, k': Kind, y: nat)
    requires ListsSound(ls)
    ensures ListsSound(ls.Move(p, k))
    ensures y in ls.Move(p, k).Of(k') <==> if y == p then k' == k else y in ls.Of(k')
  {
    DropMember(ls, p, k', y);
    DropMember(ls, p, k, p);
    var drop := ls.Drop(p);
    AddNoDup(drop.Of(k), p);
    forall k2 ensures drop.Add(p, k).Of(k2) == if k2 == k then [p] + drop.Of(k2) else drop.Of(k2) {
    }
  }

  // Slab p is first in the list for its count of objects in use; the lists are
  // otherwise what they were, in their order.
  ghost predicate InFront(was: SlabLists, now: SlabLists, p: nat, inuse: nat, num: nat) {
    && now.full == (if inuse == num then [p] else []) + Others(was.full, p)
    && now.partial == (if 0 < inuse < num then [p] else []) + Others(was.partial, p)
    && now.free == (if inuse == 0 then [p] else []) + Others(was.free, p)
  }

  lemma {:induction false} MovesInFront(ls: SlabLists, p: nat, inuse: nat, num: nat)
    requires ListsSound(ls) && inuse <= num && num > 0
    ensures InFront(ls, ls.Move(p, KindOf(inuse, num)), p, inuse, num)
  {
    assert ls.Of(Full) == ls.full && ls.Of(Partial) == ls.partial && ls.Of(Empty) == ls.free;
    DelIsOthers(ls.full, p);
    DelIsOthers(ls.partial, p);
    DelIsOthers(ls.free, p);
  }

  lemma {:induction false} AllSound(s: Pool, nums: seq<nat>, c: nat)
    requires Good(s, nums) && c < |nums|
    ensures c < |s.lists| && ListsSound(s.lists[c])
  {
  }

  // A slab in none of the lists needs no list_del.
  lemma {:induction false} DropNothing(ls: SlabLists, p: nat)
    requires forall k :: p !in ls.Of(k)
    ensures ls.Drop(p) == ls
  {
    assert p !in ls.Of(Full) && p !in ls.Of(Partial) && p !in ls.Of(Empty);
  }

  // Give page p a new slab record and chain, and move it to the list that calls for.
  ghost function Refile(s: Pool, nums: seq<nat>, p: nat, slab: Slab, ch: seq<nat>): Pool
    requires p < |s.pages| && slab.cachep < |nums| == |s.lists|
  {
    var c := slab.cachep;
    s.(pages := s.pages[p := slab], chains := s.chains[p := ch],
       lists := s.lists[c := s.lists[c].Move(p, KindOf(slab.inuse, nums[c]))])
  }

  lemma {:induction false} RefileKeeps(s: Pool, nums: seq<nat>, p: nat, slab: Slab, ch: seq<nat>)
    requires p < |s.pages| && slab.cachep < |nums| && Chained(slab, ch, nums[slab.cachep])
    requires SlabsSound(s, nums) && Filed(s, nums)
    requires p in s.chains ==> s.pages[p].cachep == slab.cachep
    ensures SlabsSound(Refile(s, nums, p, slab, ch), nums) && Filed(Refile(s, nums, p, slab, ch), nums)
  {
    var s' := Refile(s, nums, p, slab, ch);
    var c0, k0 := slab.cachep, KindOf(slab.inuse, nums[slab.cachep]);
    assert ListsSound(s.lists[c0]);
    forall c, k | 0 <= c < |nums| ensures NoDup(s'.lists[c].Of(k)) {
      MoveMember(s.lists[c0], p, k0, k, p);
    }
    forall c, k, q | 0 <= c < |nums| ensures q in s'.lists[c].Of(k) <==> IsSlab(s', nums, q, c, k) {
      MoveMember(s.lists[c0], p, k0, k, q);
    }
  }

  lemma {:induction false} Held(s: Pool, nums: seq<nat>, o: Object)
    requires Good(s, nums) && o in s.out
    ensures OffChain(s, nums, o) && Chained(s.pages[o.page], s.chains[o.page], nums[s.pages[o.page].cachep])
    ensures s.pages[o.page].cachep < |s.lists|
    ensures s.pages[o.page].inuse > 0 && o.index < |s.pages[o.page].bufctl|
  {
    PutChained(s.pages[o.page], s.chains[o.page], nums[s.pages[o.page].cachep], o.index);
  }

  lemma {:induction false} Member(s: Pool, nums: seq<nat>, c: nat, k: Kind, p: nat)
    requires Good(s, nums) && c < |nums| && p in s.lists[c].Of(k)
    ensures p in s.chains && p < |s.pages| && s.pages[p].cachep == c && KindOf(s.pages[p].inuse, nums[c]) == k
    ensures Chained(s.pages[p], s.chains[p], nums[c]) && nums[c] > 0
  {
    assert IsSlab(s, nums, p, c, k);
  }

  // ---------- Steps ----------

  // The pages of the pool, available or slabs.
  ghost function PagesOf(s: Pool): set<nat> {
    s.avail + s.chains.Keys
  }

  // kmem_cache_alloc from slab p.
  ghost function Allocated(s: Pool, nums: seq<nat>, p: nat): Pool
    requires Good(s, nums) && p in s.chains && s.pages[p].inuse < nums[s.pages[p].cachep]
  {
    TakeChained(s.pages[p], s.chains[p], nums[s.pages[p].cachep]);
    Refile(s, nums, p, TakeObject(s.pages[p]), s.chains[p][1..]).(out := s.out + {Object(p, s.chains[p][0])})
  }

  lemma {:induction false} AllocatedKeeps(s: Pool, nums: seq<nat>, p: nat)
    requires Good(s, nums) && p in s.chains && s.pages[p].inuse < nums[s.pages[p].cachep]
    ensures Good(Allocated(s, nums, p), nums) && PagesOf(Allocated(s, nums, p)) == PagesOf(s)
    ensures Object(p, s.pages[p].free) !in s.out
    ensures Allocated(s, nums, p).out == s.out + {Object(p, s.pages[p].free)}
    ensures s.chains[p] != [] && 0 <= s.pages[p].free < |s.pages[p].bufctl|
    ensures s.pages[p].free < nums[s.pages[p].cachep]
  {
    var slab, ch, num := s.pages[p], s.chains[p], nums[s.pages[p].cachep];
    TakeChained(slab, ch, num);
    RefileKeeps(s, nums, p, TakeObject(slab), ch[1..]);
    AllocatedOut(s, nums, p);
  }

  lemma {:induction false} AllocatedOut(s: Pool, nums: seq<nat>, p: nat)
    requires Good(s, nums) && p in s.chains && s.pages[p].inuse < nums[s.pages[p].cachep]
    ensures OutExact(Allocated(s, nums, p), nums) && Object(p, s.pages[p].free) !in s.out
    ensures Allocated(s, nums, p).out == s.out + {Object(p, s.pages[p].free)}
  {
    var slab, ch := s.pages[p], s.chains[p];
    TakeChained(slab, ch, nums[slab.cachep]);
    var s' := Allocated(s, nums, p);
    assert ch == [ch[0]] + ch[1..];
    assert ch[0] in ch && ch[0] == slab.free;
    hide SlabsSound, Filed, Chained, NoDup;
    forall o: Object ensures o in s'.out <==> OffChain(s', nums, o) {
      assert o in s.out <==> OffChain(s, nums, o);
    }
  }

  // kmem_cache_free of an object handed out.
  ghost function Freed(s: Pool, nums: seq<nat>, o: Object): Pool
    requires Good(s, nums) && o in s.out
  {
    assert OffChain(s, nums, o);
    PutChained(s.pages[o.page], s.chains[o.page], nums[s.pages[o.page].cachep], o.index);
    Refile(s, nums, o.page, PutObject(s.pages[o.page], o.index), [o.index] + s.chains[o.page]).(out := s.out - {o})
  }

  lemma {:induction false} FreedKeeps(s: Pool, nums: seq<nat>, o: Object)
    requires Good(s, nums) && o in s.out
    ensures Good(Freed(s, nums, o), nums) && PagesOf(Freed(s, nums, o)) == PagesOf(s)
  {
    assert OffChain(s, nums, o);
    var p := o.page;
    var slab, ch, num := s.pages[p], s.chains[p], nums[s.pages[p].cachep];
    PutChained(slab, ch, num, o.index);
    RefileKeeps(s, nums, p, PutObject(slab, o.index), [o.index] + ch);
    var s' := Freed(s, nums, o);
    forall o': Object ensures o' in s'.out <==> OffChain(s', nums, o') {
      assert o' in s.out <==> OffChain(s, nums, o');
    }
  }

  // The object freed is the next of its slab, and the slab the first of its list.
  lemma {:induction false} FreedInFront(s: Pool, nums: seq<nat>, o: Object)
    requires Good(s, nums) && o in s.out
    ensures var s' := Freed(s, nums, o);
      && o.page < |s.pages| == |s'.pages| && s.pages[o.page].cachep < |nums| == |s.lists| == |s'.lists|
      && s'.pages[o.page].free == o.index && s'.pages[o.page].inuse == s.pages[o.page].inuse - 1
      && var c := s.pages[o.page].cachep;
      InFront(s.lists[c], s'.lists[c], o.page, s.pages[o.page].inuse - 1, nums[c])
  {
    Held(s, nums, o);
    var c := s.pages[o.page].cachep;
    AllSound(s, nums, c);
    MovesInFront(s.lists[c], o.page, s.pages[o.page].inuse - 1, nums[c]);
  }

  // kmem_cache_grow of cache c by page p.
  ghost function Grown(s: Pool, nums: seq<nat>, c: nat, p: nat, table: seq<int>): Pool
    requires Good(s, nums) && c < |nums| && p in s.avail
  {
    Refile(s, nums, p, Slab(c, 0, 0, table), Upto(nums[c])).(avail := s.avail - {p})
  }

  lemma {:induction false} GrownKeeps(s: Pool, nums: seq<nat>, c: nat, p: nat, table: seq<int>)
    requires Good(s, nums) && c < |nums| && p in s.avail && Threaded(table, nums[c])
    ensures Good(Grown(s, nums, c, p, table), nums) && PagesOf(Grown(s, nums, c, p, table)) == PagesOf(s)
  {
    NewChained(c, table, nums[c]);
    RefileKeeps(s, nums, p, Slab(c, 0, 0, table), Upto(nums[c]));
    GrownOut(s, nums, c, p, table);
  }

  lemma {:induction false} GrownOut(s: Pool, nums: seq<nat>, c: nat, p: nat, table: seq<int>)
    requires Good(s, nums) && c < |nums| && p in s.avail
    ensures OutExact(Grown(s, nums, c, p, table), nums)
  {
    hide SlabsSound, Filed;
    var s' := Grown(s, nums, c, p, table);
    forall o: Object ensures o in s'.out <==> OffChain(s', nums, o) {
      assert o in s.out <==> OffChain(s, nums, o);
      if o.page == p && o.index < nums[c] {
        assert Upto(nums[c])[o.index] == o.index;
      }
    }
  }

  // A new cache, without slabs.
  lemma {:induction false} CreatedKeeps(s: Pool, nums: seq<nat>, num: nat)
    requires Good(s, nums) && num > 0
    ensures Good(s.(lists := s.lists + [SlabLists([], [], [])]), nums + [num])
    ensures PagesOf(s.(lists := s.lists + [SlabLists([], [], [])])) == PagesOf(s)
  {
    var s', nums' := s.(lists := s.lists + [SlabLists([], [], [])]), nums + [num];
    forall c, k | 0 <= c < |nums'| ensures NoDup(s'.lists[c].Of(k)) {
    }
    forall c, k, p | 0 <= c < |nums'| ensures p in s'.lists[c].Of(k) <==> IsSlab(s', nums', p, c, k) {
      assert c < |nums| ==> (p in s.lists[c].Of(k) <==> IsSlab(s, nums, p, c, k));
    }
    forall o: Object ensures o in s'.out <==> OffChain(s', nums', o) {
      assert o in s.out <==> OffChain(s, nums, o);
    }
  }

  // All objects of a full slab are out.
  lemma {:induction false} FullSlab(s: Pool, nums: seq<nat>, p: nat)
    requires Good(s, nums) && p in s.chains && s.pages[p].inuse == nums[s.pages[p].cachep]
    ensures |s.out| >= nums[s.pages[p].cachep]
  {
    var num := nums[s.pages[p].cachep];
    assert s.chains[p] == [];
    forall o | o in Row(p, num) ensures o in s.out {
      assert OffChain(s, nums, o);
    }
    RowSize(p, num);
    SubsetSize(Row(p, num), s.out);
  }

  // The first num objects of page p.
  ghost function Row(p: nat, num: nat): set<Object> {
    set i: nat | i < num :: Object(p, i)
  }

  lemma {:induction false} RowSize(p: nat, num: nat)
    ensures |Row(p, num)| == num
    decreases num
  {
    if num > 0 {
      RowSize(p, num - 1);
      assert Row(p, num) == Row(p, num - 1) + {Object(p, num - 1)};
    }
  }

  lemma {:induction false} SubsetSize(a: set<Object>, b: set<Object>)
    requires a <= b
    ensures |a| <= |b|
  {
    assert b == a + (b - a);
  }

  // The first free slab is in that list only, and at its front.
  lemma {:induction false} DropFirstFree(s: Pool, nums: seq<nat>, c: nat)
    requires Good(s, nums) && c < |nums| && |s.lists[c].free| > 0
    ensures s.lists[c].Drop(s.lists[c].free[0]) == s.lists[c].(free := s.lists[c].free[1..])
  {
    var p := s.lists[c].free[0];
    assert p in s.lists[c].Of(Empty);
    assert p !in s.lists[c].Of(Full) && p !in s.lists[c].Of(Partial);
  }

  // kmem_slab_destroy of the free slab p of cache c.
  ghost function Destroyed(s: Pool, c: nat, p: nat): Pool
    requires c < |s.lists|
  {
    s.(lists := s.lists[c := s.lists[c].Drop(p)], chains := s.chains - {p}, avail := s.avail + {p})
  }

  lemma {:induction false} DestroyedKeeps(s: Pool, nums: seq<nat>, c: nat, p: nat)
    requires Good(s, nums) && c < |nums| && p in s.lists[c].free
    ensures Good(Destroyed(s, c, p), nums) && PagesOf(Destroyed(s, c, p)) == PagesOf(s)
    ensures p in s.chains && p !in s.avail && forall i :: Object(p, i) !in s.out
  {
    assert p in s.lists[c].Of(Empty);
    assert IsSlab(s, nums, p, c, Empty);
    var s' := Destroyed(s, c, p);
    assert ListsSound(s.lists[c]);
    forall c', k | 0 <= c' < |nums| ensures NoDup(s'.lists[c'].Of(k)) {
      DropMember(s.lists[c], p, k, p);
    }
    forall c', k, q | 0 <= c' < |nums| ensures q in s'.lists[c'].Of(k) <==> IsSlab(s', nums, q, c', k) {
      DropMember(s.lists[c], p, k, q);
      assert q in s.lists[c'].Of(k) <==> IsSlab(s, nums, q, c', k);
    }
    UnusedIsWhole(s.pages[p], s.chains[p], nums[c]);
    forall o: Object ensures o in s'.out <==> OffChain(s', nums, o) {
      assert o in s.out <==> OffChain(s, nums, o);
    }
  }

  // With nothing in use every index is on the chain.
  lemma {:induction false} UnusedIsWhole(s: Slab, ch: seq<nat>, num: nat)
    requires Chained(s, ch, num) && s.inuse == 0
    ensures forall i :: 0 <= i < num ==> i in ch
  {
    forall i | 0 <= i < num ensures i in ch {
      if i !in ch {
        Pigeon(ch, num, i);
      }
    }
  }
}
