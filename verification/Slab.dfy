// The slab allocator of lab2/kern/mm/slub.c, in place over the page records and
// the slab lists of its caches.

module Slab {
  import opened Arith
  import opened Bits
  import opened Lists
  import opened SlabLayout
  import opened SlabPool
  import opened Wrappers

  const TABLE: nat := 2048          // 16-bit words in a page
  const SIZEOF_CACHE: nat := 104    // sizeof(struct kmem_cache_t)
  const SIZED_CACHE_NUM: nat := 8

  class SlabAllocator {
    const base: nat              // address of page 0
    const pages: array<Slab>
    var sizes: seq<nat>          // object size of each cache; cache 0 is cache_cache
    var nums: seq<nat>           // objects per slab of each cache
    var lists: seq<SlabLists>
    var chain: seq<nat>          // cache_chain
    var sized: seq<nat>          // sized_caches
    var avail: set<nat>          // pages the page allocator can give
    ghost var chains: map<nat, seq<nat>>
    ghost var out: set<Object>   // objects handed out
    ghost var desc: seq<Object>  // of these, the descriptors of the caches from 1 on

    ghost function State(): Pool
      reads this`lists, this`chains, this`avail, this`out, pages
    {
      Pool(pages[..], lists, chains, avail, out)
    }

    ghost predicate Shape()
      reads this`sizes, this`nums, this`lists
    {
      && base % PGSIZE == 0 && |sizes| == |nums| == |lists| > 0 && sizes[0] == SIZEOF_CACHE
      && forall c :: 0 <= c < |sizes| ==> 1 <= sizes[c] <= PGSIZE - 2 && nums[c] == Num(sizes[c])
    }

    // Every cache is on the chain, the newest first, and has a descriptor of its
    // own, an object of cache_cache.
    ghost predicate Described()
      reads this`chain, this`sizes, this`desc, this`out, pages
    {
      && |chain| == |sizes| == |desc| + 1
      && (forall i :: 0 <= i < |chain| ==> chain[i] == |chain| - 1 - i)
      && (forall i, j :: 0 <= i < j < |desc| ==> desc[i] != desc[j])
      && forall i :: 0 <= i < |desc| ==>
        desc[i] in out && desc[i].page < pages.Length && pages[desc[i].page].cachep == 0
    }

    ghost predicate Sized()
      reads pages
    {
      forall p :: 0 <= p < pages.Length ==> |pages[p].bufctl| == TABLE
    }

    ghost predicate Valid()
      reads this`sizes, this`nums, this`lists, this`chain, this`avail, this`chains, this`out, this`desc, pages
    {
      Shape() && Sized() && Described() && Good(State(), nums)
    }

    // Where the object lies.
    ghost function AddressOf(o: Object): nat
      reads this, pages
      requires Valid() && o in out
    {
      assert OffChain(State(), nums, o);
      Address(base, o.page, sizes[pages[o.page].cachep], o.index)
    }

    // The chain of every slab visits num - inuse distinct indices, those of the
    // objects not handed out, and its list is the one for its count.
    lemma {:induction false} ChainExact(p: nat)
      requires Valid() && p in chains
      ensures p < pages.Length && pages[p].cachep < |nums| && p !in avail
      ensures var c := pages[p].cachep;
        && Chained(pages[p], chains[p], nums[c])
        && (forall i :: 0 <= i < nums[c] ==> (i in chains[p] <==> Object(p, i) !in out))
        && (forall k :: p in lists[c].Of(k) <==> k == KindOf(pages[p].inuse, nums[c]))
    {
      var c := pages[p].cachep;
      forall i | 0 <= i < nums[c] ensures i in chains[p] <==> Object(p, i) !in out {
        assert Object(p, i) in out <==> OffChain(State(), nums, Object(p, i));
      }
      forall k ensures p in lists[c].Of(k) <==> k == KindOf(pages[p].inuse, nums[c]) {
        assert p in lists[c].Of(k) <==> IsSlab(State(), nums, p, c, k);
      }
    }

    // A page that can be given is in no list and holds no descriptor.
    lemma {:induction false} NoSlabYet(c: nat, p: nat)
      requires Valid() && c < |nums| && p in avail
      ensures p < pages.Length && c < |lists| && forall k :: p !in lists[c].Of(k)
      ensures forall i :: 0 <= i < |desc| ==> desc[i].page != p
    {
      forall k ensures p !in lists[c].Of(k) {
        assert p in lists[c].Of(k) <==> IsSlab(State(), nums, p, c, k);
      }
      forall i | 0 <= i < |desc| ensures desc[i].page != p {
        Held(State(), nums, desc[i]);
      }
    }

    // kmem_cache_grow, with a page to be had.
    method Grow(c: nat) returns (p: nat)
      requires Valid() && c < |nums| && avail != {}
      modifies this`avail, this`chains, this`lists, pages
      ensures Valid() && p in old(avail)
      ensures avail == old(avail) - {p} && out == old(out) && PagesOf(State()) == old(PagesOf(State()))
      ensures lists == old(lists)[c := old(lists[c]).Add(p, Empty)] && forall k :: p !in old(lists[c]).Of(k)
      ensures lists[c].free == [p] + old(lists[c].free)
      ensures pages[p].free == 0 && nums[c] <= |pages[p].bufctl|
      ensures forall i :: 0 <= i < nums[c] ==> pages[p].bufctl[i] == if i + 1 < nums[c] then i + 1 else -1
      ensures forall q :: 0 <= q < pages.Length && q != p ==> pages[q] == old(pages[q])
    {
      hide Good, PagesOf, Num;
      p :| p in avail;
      NoSlabYet(c, p);
      avail := avail - {p};
      var bufctl := NewTable(pages[p].bufctl, nums[c], sizes[c]);
      GrownKeeps(old(State()), nums, c, p, bufctl);
      DropNothing(lists[c], p);
      pages[p] := Slab(c, 0, 0, bufctl);
      lists := lists[c := lists[c].Add(p, Empty)];
      chains := chains[p := Upto(nums[c])];
      assert State() == Grown(old(State()), nums, c, p, bufctl);
    }

    // The index table of a new slab, in order.
    method NewTable(was: seq<int>, num: nat, size: nat) returns (bufctl: seq<int>)
      requires |was| == TABLE && 1 <= size <= PGSIZE - 2 && num == Num(size)
      ensures Threaded(bufctl, num) && |bufctl| == TABLE
    {
      NumBound(size);
      bufctl := was;
      var i := 1;
      while i < num
        invariant 1 <= i <= num && |bufctl| == TABLE
        invariant forall k :: 0 <= k < i - 1 ==> bufctl[k] == k + 1
      {
        bufctl := bufctl[i - 1 := i];
        i := i + 1;
      }
      bufctl := bufctl[num - 1 := -1];
    }

    // The cache has a slab with room, or can have one.
    ghost predicate CanAlloc(c: nat)
      reads this`lists, this`avail
      requires c < |lists|
    {
      lists[c].partial != [] || lists[c].free != [] || avail != {}
    }

    // kmem_cache_alloc. A partial slab is preferred to a free one, and a new
    // page is taken only if the cache has neither.
    method Alloc(c: nat) returns (objp: nat, ghost o: Object)
      requires Valid() && c < |nums| && CanAlloc(c)
      modifies this`avail, this`chains, this`out, this`lists, pages
      ensures Valid() && o !in old(out) && out == old(out) + {o} && objp == AddressOf(o)
      ensures o.page < pages.Length && pages[o.page].cachep == c && PagesOf(State()) == old(PagesOf(State()))
      ensures var ls := old(lists[c]);
        if ls.partial != [] then o.page == ls.partial[0] && avail == old(avail)
        else if ls.free != [] then o.page == ls.free[0] && avail == old(avail)
        else o.page in old(avail) && avail == old(avail) - {o.page} && o.index == 0
      ensures old(lists[c]).partial != [] || old(lists[c]).free != [] ==> o.index == old(pages[..])[o.page].free
      ensures InFront(old(lists[c]), lists[c], o.page, pages[o.page].inuse, nums[c])
      ensures forall q :: 0 <= q < pages.Length && q != o.page ==> pages[q] == old(pages[q])
      ensures lists == old(lists)[c := lists[c]]
    {
      hide SlabsSound, Filed, OutExact, PagesSplit, InFront, Sized, Described, PagesOf;
      AllSound(State(), nums, c);
      ghost var was := lists[c];
      var p;
      ghost var k;
      if |lists[c].partial| > 0 {
        p, k := lists[c].partial[0], Partial;
      } else {
        if |lists[c].free| == 0 {
          var grown := Grow(c);
        }
        p, k := lists[c].free[0], Empty;
      }
      Member(State(), nums, c, k, p);
      objp, o := AllocFrom(c, p);
      MovesInFront(was, p, pages[p].inuse, nums[c]);
    }

    method AllocFrom(c: nat, p: nat) returns (objp: nat, ghost o: Object)
      requires Valid() && c < |nums| && p in chains && p < pages.Length
      requires pages[p].cachep == c && pages[p].inuse < nums[c]
      modifies this`chains, this`out, this`lists, pages
      ensures Valid() && o !in old(out) && out == old(out) + {o} && objp == AddressOf(o)
      ensures o.page == p && pages[p].cachep == c && avail == old(avail) && PagesOf(State()) == old(PagesOf(State()))
      ensures o.index == old(pages[p].free) && pages[p].inuse == old(pages[p].inuse) + 1
      ensures lists[c] == old(lists[c]).Move(p, KindOf(pages[p].inuse, nums[c]))
      ensures forall q :: 0 <= q < pages.Length && q != p ==> pages[q] == old(pages[q])
      ensures lists == old(lists)[c := lists[c]]
    {
      hide Good, Chained, Num, Times;
      AllocatedKeeps(State(), nums, p);
      var buf := PageAddress(base, p) + (nums[c] + nums[c]);
      objp := buf + Times(pages[p].free, sizes[c]);
      o := Object(p, pages[p].free);
      Unlink(c, p);
      out := out + {o};
      assert State() == Allocated(old(State()), nums, p);
    }

    // The first free object of page p comes off its chain, and the page goes to
    // the list for its new count.
    method Unlink(c: nat, p: nat)
      requires Shape() && c < |nums| && p < pages.Length && pages[p].cachep == c && p in chains
      requires chains[p] != [] && 0 <= pages[p].free < |pages[p].bufctl| && pages[p].inuse < nums[c]
      modifies this`chains, this`lists, pages
      ensures State() == Refile(old(State()), nums, p, TakeObject(old(pages[p])), old(chains[p])[1..])
    {
      lists := lists[c := lists[c].Drop(p)];
      chains := chains[p := chains[p][1..]];
      TakeFrom(p);
      File(c, p, if pages[p].inuse == nums[c] then Full else Partial);
    }

    // Unlink the first free object of page p.
    method TakeFrom(p: nat)
      requires p < pages.Length && 0 <= pages[p].free < |pages[p].bufctl|
      modifies pages
      ensures pages[..] == old(pages[..])[p := TakeObject(old(pages[p]))]
    {
      var free := pages[p].free;
      pages[p] := pages[p].(inuse := pages[p].inuse + 1);
      pages[p] := pages[p].(free := pages[p].bufctl[free]);
    }

    // list_add of page p to one of the lists of cache c.
    method File(c: nat, p: nat, k: Kind)
      requires c < |lists|
      modifies this`lists
      ensures lists == old(lists)[c := old(lists[c]).Add(p, k)]
    {
      lists := lists[c := lists[c].Add(p, k)];
    }

    // kmem_cache_free of an object handed out from cache c, not a descriptor.
    method Free(c: nat, objp: nat, ghost o: Object)
      requires Valid() && o in out && o !in desc && objp == AddressOf(o) && c < |nums| && pages[o.page].cachep == c
      modifies this`chains, this`out, this`lists, pages
      ensures Valid() && out == old(out) - {o} && PagesOf(State()) == old(PagesOf(State()))
      ensures State() == Freed(old(State()), nums, o)
      ensures pages[o.page].free == o.index && pages[o.page].inuse == old(pages[o.page].inuse) - 1
      ensures InFront(old(lists[c]), lists[c], o.page, pages[o.page].inuse, nums[c])
    {
      hide Good, Chained, Num, Times, InFront, KindOf;
      FreedInFront(State(), nums, o);
      FreedKeeps(State(), nums, o);
      Held(State(), nums, o);
      var p, offset := Locate(c, objp, o);
      Link(c, p, offset);
      out := out - {o};
      assert State() == Freed(old(State()), nums, o);
    }

    // An allocation straight after a free hands out the object just freed,
    // unless its slab went to the free list and another slab is partial.
    method FreeThenAlloc(c: nat, objp: nat, ghost o: Object) returns (objp': nat, ghost o': Object)
      requires Valid() && o in out && o !in desc && objp == AddressOf(o) && c < |nums| && pages[o.page].cachep == c
      modifies this`avail, this`chains, this`out, this`lists, pages
      ensures Valid() && (o' == o ==> objp' == objp && out == old(out))
      ensures o' == o <==> old(pages[o.page].inuse) > 1 || Others(old(lists[c]).partial, o.page) == []
    {
      hide Good, Chained, PagesOf, Freed, InFront, Sized, Described, Others, Num;
      Held(State(), nums, o);
      ghost var was := lists[c];
      Free(c, objp, o);
      FreedPartial(was, lists[c], o.page, pages[o.page].inuse, nums[c]);
      objp', o' := Alloc(c);
    }

    lemma {:induction false} FreedPartial(was: SlabLists, now: SlabLists, p: nat, inuse: nat, num: nat)
      requires InFront(was, now, p, inuse, num) && inuse < num
      ensures inuse > 0 ==> now.partial != [] && now.partial[0] == p
      ensures inuse == 0 ==> now.free != [] && now.free[0] == p && now.partial == Others(was.partial, p)
      ensures now.partial != [] && now.partial[0] == p <==> inuse > 0
    {
      if inuse == 0 {
        NotAmongOthers(was.partial, p);
      }
    }

    // Page and index of an object from its address.
    method Locate(c: nat, objp: nat, ghost o: Object) returns (p: nat, offset: nat)
      requires Shape() && c < |nums| && objp == Address(base, o.page, sizes[c], o.index) && o.index < nums[c]
      ensures p == o.page && offset == o.index
    {
      Recovered(base, o.page, sizes[c], o.index);
      Inside(base, o.page, sizes[c], o.index);
      var kva := RoundDown(objp);
      p := (kva - base) / PGSIZE;
      offset := (objp - (kva + (nums[c] + nums[c]))) / sizes[c];
    }

    // Object i of page p goes back on its chain, and the page to the list for
    // its new count.
    method Link(c: nat, p: nat, i: nat)
      requires Shape() && c < |nums| && p < pages.Length && pages[p].cachep == c && p in chains
      requires i < |pages[p].bufctl| && 0 < pages[p].inuse <= nums[c]
      modifies this`chains, this`lists, pages
      ensures State() == Refile(old(State()), nums, p, PutObject(old(pages[p]), i), [i] + old(chains[p]))
    {
      lists := lists[c := lists[c].Drop(p)];
      chains := chains[p := [i] + chains[p]];
      PutInto(p, i);
      File(c, p, if pages[p].inuse == 0 then Empty else Partial);
    }

    method PutInto(p: nat, i: nat)
      requires p < pages.Length && i < |pages[p].bufctl| && pages[p].inuse > 0
      modifies pages
      ensures pages[..] == old(pages[..])[p := PutObject(old(pages[p]), i)]
    {
      pages[p] := pages[p].(bufctl := pages[p].bufctl[i := pages[p].free]);
      pages[p] := pages[p].(inuse := pages[p].inuse - 1);
      pages[p] := pages[p].(free := i);
    }

    // kfree: the cache is found through the page.
    method Kfree(objp: nat, ghost o: Object)
      requires Valid() && o in out && o !in desc && objp == AddressOf(o)
      modifies this`chains, this`out, this`lists, pages
      ensures Valid() && State() == Freed(old(State()), nums, o)
    {
      Held(State(), nums, o);
      var p := PageOf(objp, o);
      Free(pages[p].cachep, objp, o);
    }

    method PageOf(objp: nat, ghost o: Object) returns (p: nat)
      requires Valid() && o in out && objp == AddressOf(o)
      ensures p == o.page
    {
      Held(State(), nums, o);
      Recovered(base, o.page, sizes[pages[o.page].cachep], o.index);
      Inside(base, o.page, sizes[pages[o.page].cachep], o.index);
      p := (RoundDown(objp) - base) / PGSIZE;
    }

    // kmem_slab_destroy of a slab on the free list.
    method SlabDestroy(c: nat, p: nat)
      requires Valid() && c < |nums| && p in lists[c].free
      modifies this`avail, this`chains, this`lists
      ensures Valid() && State() == Destroyed(old(State()), c, p)
      ensures p !in old(avail) && PagesOf(State()) == old(PagesOf(State()))
    {
      hide Good, PagesOf;
      DestroyedKeeps(State(), nums, c, p);
      lists := lists[c := lists[c].Drop(p)];
      avail := avail + {p};
      chains := chains - {p};
      assert State() == Destroyed(old(State()), c, p);
    }

    // kmem_cache_shrink: all free slabs of the cache go back, and no others.
    method Shrink(c: nat) returns (count: nat)
      requires Valid() && c < |nums|
      modifies this`avail, this`chains, this`lists
      ensures Valid() && out == old(out) && PagesOf(State()) == old(PagesOf(State()))
      ensures count == |old(lists[c].free)| && count == |avail| - |old(avail)|
      ensures Given(old(avail), old(lists[c].free), avail)
      ensures lists == old(lists)[c := old(lists[c]).(free := [])]
    {
      hide Good, Given, PagesOf;
      ghost var was, given := lists[c].free, avail;
      count := 0;
      assert Given(given, [], avail) by {
        GivenNone(given);
      }
      while |lists[c].free| > 0
        invariant Valid() && out == old(out) && PagesOf(State()) == old(PagesOf(State()))
        invariant count <= |was| && lists == old(lists)[c := old(lists[c]).(free := was[count..])]
        invariant Given(given, was[..count], avail) && count == |avail| - |given|
        decreases |lists[c].free|
      {
        GivenOne(given, was, count, avail);
        ghost var p := ShrinkOne(c);
        count := count + 1;
      }
      assert was[..count] == was;
    }

    // The pages of list came on top of those there were.
    ghost predicate Given(was: set<nat>, list: seq<nat>, now: set<nat>) {
      forall p :: p in now <==> p in was || p in list
    }

    lemma {:induction false} GivenNone(was: set<nat>)
      ensures Given(was, [], was)
    {
    }

    lemma {:induction false} GivenOne(was: set<nat>, list: seq<nat>, n: nat, now: set<nat>)
      requires n < |list| && Given(was, list[..n], now)
      ensures Given(was, list[..n + 1], now + {list[n]})
      ensures list[n..][0] == list[n] && list[n..][1..] == list[n + 1..]
    {
      assert list[..n + 1] == list[..n] + [list[n]];
    }

    method ShrinkOne(c: nat) returns (ghost p: nat)
      requires Valid() && c < |nums| && |lists[c].free| > 0
      modifies this`avail, this`chains, this`lists
      ensures Valid() && out == old(out) && PagesOf(State()) == old(PagesOf(State()))
      ensures p == old(lists[c].free[0]) && p !in old(avail) && avail == old(avail) + {p}
      ensures lists == old(lists)[c := old(lists[c]).(free := old(lists[c].free)[1..])]
    {
      DropFirstFree(State(), nums, c);
      p := lists[c].free[0];
      SlabDestroy(c, lists[c].free[0]);
    }

    // kmem_cache_reap: shrink every cache on the chain.
    method Reap() returns (count: nat)
      requires Valid()
      modifies this`avail, this`chains, this`lists
      ensures Valid() && out == old(out) && PagesOf(State()) == old(PagesOf(State()))
      ensures count == |avail| - |old(avail)|
      ensures Reaped(old(lists), lists, chain) && forall c :: 0 <= c < |lists| ==> c in chain
    {
      hide Good, Reaped, PagesOf, Given;
      forall c | 0 <= c < |lists| ensures c in chain {
        assert chain[|chain| - 1 - c] == c;
      }
      count := 0;
      var i := 0;
      ReapedNone(lists);
      while i < |chain|
        invariant i <= |chain| && Valid() && out == old(out) && PagesOf(State()) == old(PagesOf(State()))
        invariant count == |avail| - |old(avail)|
        invariant Reaped(old(lists), lists, chain[..i])
      {
        assert chain[i] in chain;
        ghost var before := lists;
        var given := Shrink(chain[i]);
        count := count + given;
        ReapedOne(old(lists), before, lists, chain, i);
        i := i + 1;
      }
      assert chain[..i] == chain;
    }

    // The caches named have no free slabs left; nothing else happened to the lists.
    ghost predicate Reaped(was: seq<SlabLists>, now: seq<SlabLists>, done: seq<nat>) {
      && |now| == |was|
      && forall c :: 0 <= c < |was| ==> now[c] == if c in done then was[c].(free := []) else was[c]
    }

    lemma {:induction false} ReapedNone(was: seq<SlabLists>)
      ensures Reaped(was, was, chain[..0])
    {
    }

    lemma {:induction false} ReapedOne(was: seq<SlabLists>, before: seq<SlabLists>, now: seq<SlabLists>,
                                       order: seq<nat>, i: nat)
      requires i < |order| && Reaped(was, before, order[..i]) && |now| == |before| && order[i] < |now|
      requires now[order[i]] == before[order[i]].(free := [])
      requires forall d :: 0 <= d < |now| && d != order[i] ==> now[d] == before[d]
      ensures Reaped(was, now, order[..i + 1])
    {
      assert order[..i + 1] == order[..i] + [order[i]];
    }

    // No two objects handed out overlap.
    lemma {:induction false} LiveDisjoint(o: Object, o': Object)
      requires Valid() && o in out && o' in out && o != o'
      ensures AddressOf(o) + sizes[pages[o.page].cachep] <= AddressOf(o')
           || AddressOf(o') + sizes[pages[o'.page].cachep] <= AddressOf(o)
    {
      Held(State(), nums, o);
      Held(State(), nums, o');
      var s, s' := sizes[pages[o.page].cachep], sizes[pages[o'.page].cachep];
      if o.page < o'.page || (o.page == o'.page && o.index < o'.index) {
        Disjoint(base, o.page, s, o.index, o'.page, s', o'.index);
      } else {
        Disjoint(base, o'.page, s', o'.index, o.page, s, o.index);
      }
    }

    // ---------- Caches ----------

    // kmem_cache_create: a descriptor from cache_cache, and a new cache without
    // slabs in front of the chain.
    method Create(size: nat) returns (r: Result<nat>)
      requires Valid() && size > 0 && CanAlloc(0)
      modifies this`avail, this`chains, this`out, this`lists, this`sizes, this`nums, this`chain, this`desc, pages
      ensures r == if size <= 4094 then Ok(|old(sizes)|) else Halt
      ensures r.Ok? ==> Valid() && sizes == old(sizes) + [size] && chain == [r.value] + old(chain)
      ensures r.Ok? ==> |lists| > 0 && lists[1..] == old(lists[1..]) + [SlabLists([], [], [])]
      ensures r.Ok? ==> NewObject(old(desc), desc, old(out), out) && PagesOf(State()) == old(PagesOf(State()))
    {
      hide Good, PagesOf;
      if size > PGSIZE - 2 {
        return Halt;
      }
      var cachep;
      ghost var o;
      cachep, o := Alloc(0);
      Enlist(size, o);
      r := Ok(|sizes| - 1);
    }

    // One more descriptor, in an object that was not handed out.
    ghost predicate NewObject(was: seq<Object>, now: seq<Object>, before: set<Object>, after: set<Object>) {
      |now| > 0 && now[..|now| - 1] == was && now[|now| - 1] !in before && after == before + {now[|now| - 1]}
    }

    // The new cache described by object o.
    method Enlist(size: nat, ghost o: Object)
      requires Valid() && 0 < size <= PGSIZE - 2 && o in out && o !in desc
      requires o.page < pages.Length && pages[o.page].cachep == 0
      modifies this`lists, this`sizes, this`nums, this`chain, this`desc
      ensures Valid() && sizes == old(sizes) + [size] && chain == [|old(sizes)|] + old(chain)
      ensures lists == old(lists) + [SlabLists([], [], [])] && desc == old(desc) + [o]
      ensures PagesOf(State()) == old(PagesOf(State()))
    {
      hide Good, PagesOf, Num;
      CreatedKeeps(State(), nums, Num(size));
      chain := [|sizes|] + chain;
      sizes, nums, lists := sizes + [size], nums + [Num(size)], lists + [SlabLists([], [], [])];
      desc := desc + [o];
      assert State() == old(State()).(lists := old(lists) + [SlabLists([], [], [])]);
    }

    // While cache_cache has a slab and fewer objects than one slab holds are out,
    // it has room for one more.
    lemma {:induction false} Room(p: nat)
      requires Valid() && p in chains && pages[p].cachep == 0 && |out| < nums[0]
      ensures lists[0].partial != [] || lists[0].free != []
    {
      ChainExact(p);
      if pages[p].inuse == nums[0] {
        FullSlab(State(), nums, p);
      }
      assert p in lists[0].Of(KindOf(pages[p].inuse, nums[0]));
    }

    // The sized caches are there, for the powers of two from 16 on.
    ghost predicate SizedCaches(n: nat)
      reads this
    {
      |sized| == n && forall i :: 0 <= i < n ==> sized[i] < |sizes| && sizes[sized[i]] == Exp2(i + 4)
    }

    // The loop of kmem_int. One page is enough for all the descriptors.
    method MakeSizedCaches()
      requires Valid() && |sizes| == 1 && out == {} && sized == [] && avail != {}
      modifies this, pages
      ensures Valid() && SizedCaches(8) && |sizes| == 9
      ensures forall o :: o in out ==> o in desc
    {
      hide Valid;
      var i, size := 0, 16;
      assert size == Exp2(4);
      while i < SIZED_CACHE_NUM
        invariant i <= SIZED_CACHE_NUM && Valid() && size == Exp2(i + 4) && |sized| == i && SizedCaches(i)
        invariant |sizes| == i + 1 && |out| == i && forall o :: o in out ==> o in desc
        invariant i == 0 ==> avail != {}
      {
        OneSizedCache(size);
        i, size := i + 1, size + size;
      }
    }

    // One more sized cache, of the next size.
    method OneSizedCache(size: nat)
      requires Valid() && SizedCaches(|sized|) && |sized| < SIZED_CACHE_NUM && size == Exp2(|sized| + 4)
      requires |out| == |sized| && |sizes| == |sized| + 1 && (forall o :: o in out ==> o in desc)
      requires |sized| == 0 ==> avail != {}
      modifies this, pages
      ensures Valid() && |sized| == old(|sized|) + 1 && SizedCaches(|sized|)
      ensures |out| == |sized| && |sizes| == |sized| + 1 && forall o :: o in out ==> o in desc
    {
      hide Valid, State, PagesOf, Exp2;
      OneEach();
      if |sized| > 0 {
        HasRoom();
      }
      SizeFits(|sized|);
      var c := Create(size);
      ghost var o := desc[|desc| - 1];
      assert desc == desc[..|desc| - 1] + [o];
      sized := sized + [c.value];
    }

    lemma {:induction false} OneEach()
      requires Valid()
      ensures |lists| == |sizes| == |desc| + 1
    {
    }

    lemma {:induction false} DescriptorRoom()
      ensures Num(SIZEOF_CACHE) == 38
    {
      QuotientIsDivision(PGSIZE, SIZEOF_CACHE + 2);
    }

    lemma {:induction false} SizeFits(i: nat)
      requires i < SIZED_CACHE_NUM
      ensures Exp2(i + 4) <= 2048
    {
      assert Exp2(5) == 32;
      if i < 7 {
        Exp2Grows(i + 4, 11);
      }
    }

    lemma {:induction false} HasRoom()
      requires Valid() && desc != [] && |out| < SIZED_CACHE_NUM
      ensures lists[0].partial != [] || lists[0].free != []
    {
      DescriptorRoom();
      Held(State(), nums, desc[0]);
      Room(desc[0].page);
    }

    // kmalloc: an object of the class for the size, which holds it exactly when
    // the even size asked for is a power of two.
    method Kmalloc(size: nat) returns (r: Result<nat>, ghost o: Object)
      requires Valid() && SizedCaches(SIZED_CACHE_NUM)
      requires ClassOf(size) < SIZED_CACHE_NUM ==> CanAlloc(sized[ClassOf(size)])
      modifies this`avail, this`chains, this`out, this`lists, pages
      ensures r.Ok? <==> size <= 2048
      ensures r.Ok? ==> Valid() && o !in old(out) && out == old(out) + {o} && r.value == AddressOf(o)
      ensures r.Ok? ==> sizes[pages[o.page].cachep] == ClassSize(size)
      ensures r.Ok? ==> (size <= sizes[pages[o.page].cachep] <==> exists k: nat :: Rounded(size) == Exp2(k))
    {
      hide Good;
      if size > SIZED_CACHE_MAX {
        return Halt, Object(0, 0);
      }
      ClassIndex(size);
      ClassHolds(size);
      var index := SizedIndex(size);
      var objp;
      objp, o := Alloc(sized[index]);
      r := Ok(objp);
    }

    // The start of kmem_int: cache_cache, without slabs, over the pages given.
    constructor (start: nat, count: nat, given: set<nat>)
      requires start % PGSIZE == 0 && forall p :: p in given ==> p < count
      ensures Valid() && out == {} && avail == given && sizes == [104] && chain == [0]
      ensures fresh(pages)
    {
      base := start;
      pages := new Slab[count](p => Slab(0, 0, 0, seq(TABLE, k => 0)));
      sizes, nums, lists, chain := [SIZEOF_CACHE], [Num(SIZEOF_CACHE)], [SlabLists([], [], [])], [0];
      sized, avail, chains, out, desc := [], given, map[], {}, [];
      new;
      forall c, k | 0 <= c < |nums| ensures lists[c].Of(k) == [] {
      }
    }
  }
}
