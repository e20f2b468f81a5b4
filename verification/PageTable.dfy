// The three-level page table of lab3/kern/mm/pmm.c over physical frames that
// are allocated, freed and reused.

module Mappings {
  import opened Sv39

  // A mapped page and its permission bits.
  datatype Leaf = Leaf(page: nat, perm: nat)

  type Mapping = map<Vpn, Leaf>

  function Mappers(m: Mapping, p: nat): set<Vpn> {
    set v | v in m && m[v].page == p
  }

  // Number of entries that map page p.
  function Count(m: Mapping, p: nat): nat {
    |Mappers(m, p)|
  }

  // The free frames once v is removed: its page joins them if v was its only entry.
  function FreeAfterRemove(free: set<nat>, m: Mapping, v: Vpn): set<nat> {
    if v in m && Count(m, m[v].page) == 1 then free + {m[v].page} else free
  }

  // The same once v maps p instead.
  function FreeAfterInsert(free: set<nat>, m: Mapping, v: Vpn, p: nat): set<nat> {
    if v in m && m[v].page != p then FreeAfterRemove(free, m, v) else free
  }

  lemma {:induction false} CountAdd(m: Mapping, v: Vpn, leaf: Leaf, p: nat)
    requires v !in m
    ensures Count(m[v := leaf], p) == Count(m, p) + (if leaf.page == p then 1 else 0)
  {
    var m' := m[v := leaf];
    if leaf.page == p {
      assert Mappers(m', p) == Mappers(m, p) + {v};
    } else {
      assert Mappers(m', p) == Mappers(m, p);
    }
  }

  lemma {:induction false} CountRemove(m: Mapping, v: Vpn, p: nat)
    requires v in m
    ensures Count(m, p) == Count(m - {v}, p) + (if m[v].page == p then 1 else 0)
  {
    assert m == (m - {v})[v := m[v]];
    CountAdd(m - {v}, v, m[v], p);
  }

  lemma {:induction false} CountReplace(m: Mapping, v: Vpn, leaf: Leaf, p: nat)
    requires v in m
    ensures Count(m[v := leaf], p)
         == Count(m, p) - (if m[v].page == p then 1 else 0) + (if leaf.page == p then 1 else 0)
  {
    CountRemove(m, v, p);
    assert m[v := leaf] == (m - {v})[v := leaf];
    CountAdd(m - {v}, v, leaf, p);
  }

  lemma {:induction false} CountZero(m: Mapping, p: nat)
    ensures Count(m, p) == 0 <==> forall v :: v in m ==> m[v].page != p
  {
    if Count(m, p) == 0 {
      assert Mappers(m, p) == {};
      forall v | v in m ensures m[v].page != p {
        assert v !in Mappers(m, p);
      }
    } else {
      var v :| v in Mappers(m, p);
    }
  }
}

// Runs of insertions and removals.
module MappingRuns {
  import opened Sv39
  import opened Mappings

  datatype Call = Insert(v: Vpn, leaf: Leaf) | Remove(v: Vpn)

  function After(m: Mapping, call: Call): Mapping {
    match call
    case Insert(v, leaf) => m[v := leaf]
    case Remove(v) => m - {v}
  }

  function Run(m: Mapping, calls: seq<Call>): Mapping
    decreases calls, m
  {
    if |calls| == 0 then m else Run(After(m, calls[0]), calls[1..])
  }

  lemma {:induction false} Untouched(m: Mapping, calls: seq<Call>, v: Vpn)
    requires forall j :: 0 <= j < |calls| ==> calls[j].v != v
    ensures v in Run(m, calls) <==> v in m
    ensures v in m ==> Run(m, calls)[v] == m[v]
    decreases |calls|
  {
    if calls != [] {
      Untouched(After(m, calls[0]), calls[1..], v);
    }
  }

  // After any run a page number is mapped exactly if the last call about it was
  // an insertion, and then as that call said.
  lemma {:induction false} LastCallDecides(m: Mapping, calls: seq<Call>, v: Vpn, k: nat)
    requires k < |calls| && calls[k].v == v
    requires forall j :: k < j < |calls| ==> calls[j].v != v
    ensures v in Run(m, calls) <==> calls[k].Insert?
    ensures calls[k].Insert? ==> Run(m, calls)[v] == calls[k].leaf
    decreases |calls|
  {
    if k == 0 {
      Untouched(After(m, calls[0]), calls[1..], v);
    } else {
      LastCallDecides(After(m, calls[0]), calls[1..], v, k - 1);
    }
  }
}

module Tables {
  import opened Sv39
  import opened Mappings

  // Entry j of table i.
  datatype Slot = Slot(i: nat, j: nat)

  // Which table a frame serves as: the second-level table of a directory entry,
  // or the last-level table of an entry of that table.
  datatype Owner = MidOf(i: nat) | LastOf(s: Slot)

  // The tables of one address space, with the frames that hold them, and the
  // pages they map.
  datatype Tables = Tables(mid: map<nat, nat>, last: map<Slot, nat>, owner: map<nat, Owner>, mapping: Mapping)

  // The top entry of the boot directory is a giant page; it is left alone.
  const BOOT_ENTRY: nat := 511

  function Pde(f: nat, nbase: nat): nat {
    PteCreate(f + nbase, PTE_U + PTE_V)
  }

  function Pte(leaf: Leaf, nbase: nat): nat {
    PteCreate(leaf.page + nbase, leaf.perm)
  }

  // Every table has one frame of its own, and that frame is not free.
  ghost predicate Owned(t: Tables, size: nat, free: set<nat>) {
    && (forall f :: f in free ==> f < size)
    && (forall f :: f in t.owner ==> f < size && f !in free)
    && (forall i :: i in t.mid ==> i < BOOT_ENTRY && t.mid[i] in t.owner && t.owner[t.mid[i]] == MidOf(i))
    && (forall s :: s in t.last ==>
          s.i in t.mid && s.j < WORDS && t.last[s] in t.owner && t.owner[t.last[s]] == LastOf(s))
    && (forall f :: f in t.owner ==>
          match t.owner[f]
          case MidOf(i) => i in t.mid && t.mid[i] == f
          case LastOf(s) => s in t.last && t.last[s] == f)
  }

  // No entry maps a free frame or a table.
  ghost predicate Mapped(t: Tables, size: nat, free: set<nat>) {
    forall v :: v in t.mapping ==>
      && v.InRange() && Slot(v.i, v.j) in t.last && t.mapping[v].perm < FLAGS
      && t.mapping[v].page < size && t.mapping[v].page !in free && t.mapping[v].page !in t.owner
  }

  ghost predicate Sound(t: Tables, size: nat, free: set<nat>) {
    Owned(t, size, free) && Mapped(t, size, free)
  }

  // ---------- The words of the tables ----------

  ghost function DirWord(t: Tables, nbase: nat, i: nat): nat {
    if i in t.mid then Pde(t.mid[i], nbase) else 0
  }

  ghost function MidWord(t: Tables, nbase: nat, s: Slot): nat {
    if s in t.last then Pde(t.last[s], nbase) else 0
  }

  ghost function LastWord(t: Tables, nbase: nat, v: Vpn): nat {
    if v in t.mapping then Pte(t.mapping[v], nbase) else 0
  }

  // Word k of the table in frame f.
  ghost function Word(t: Tables, nbase: nat, f: nat, k: nat): nat
    requires f in t.owner
  {
    match t.owner[f]
    case MidOf(i) => MidWord(t, nbase, Slot(i, k))
    case LastOf(s) => LastWord(t, nbase, Vpn(s.i, s.j, k))
  }

  // Frame f is neither free, nor a table, nor mapped.
  ghost predicate Unclaimed(t: Tables, size: nat, free: set<nat>, f: nat) {
    && f < size && f !in free && f !in t.owner
    && forall v :: v in t.mapping ==> t.mapping[v].page != f
  }

  function WithMid(t: Tables, i: nat, f: nat): Tables {
    t.(mid := t.mid[i := f], owner := t.owner[f := MidOf(i)])
  }

  function WithLast(t: Tables, s: Slot, f: nat): Tables {
    t.(last := t.last[s := f], owner := t.owner[f := LastOf(s)])
  }

  // Tables were added, each in a frame that was free.
  ghost predicate Grew(t: Tables, t': Tables, free: set<nat>) {
    && (forall f :: f in t.owner ==> f in t'.owner && t'.owner[f] == t.owner[f])
    && (forall f :: f in t'.owner && f !in t.owner ==> f in free)
  }

  // The frames taken are those of the new tables.
  ghost predicate Added(t: Tables, t': Tables, free: set<nat>, free': set<nat>) {
    Grew(t, t', free) && t'.mapping == t.mapping && free' == free - t'.owner.Keys
  }

  lemma {:induction false} AddedNothing(t: Tables, size: nat, free: set<nat>)
    requires Sound(t, size, free)
    ensures Added(t, t, free, free)
  {
  }

  lemma {:induction false} AddedOne(t: Tables, size: nat, free: set<nat>, f: nat, t': Tables, role: Owner)
    requires Owned(t, size, free) && f in free
    requires t'.mapping == t.mapping && t'.owner == t.owner[f := role]
    ensures |free - {f}| == |free| - 1 && Added(t, t', free, free - {f})
  {
    forall g | g in free - {f} ensures g !in t'.owner {
    }
    assert free - {f} == free - t'.owner.Keys;
  }

  lemma {:induction false} AddedTwice(t: Tables, t1: Tables, t2: Tables,
                                      free: set<nat>, free1: set<nat>, free2: set<nat>)
    requires Added(t, t1, free, free1) && Added(t1, t2, free1, free2)
    ensures Added(t, t2, free, free2)
  {
  }

  // A frame that was neither free nor a table still is neither.
  lemma {:induction false} AddedApart(t: Tables, t': Tables, free: set<nat>, free': set<nat>)
    requires Added(t, t', free, free')
    ensures forall f :: f !in free && f !in t.owner ==> f !in free' && f !in t'.owner
  {
  }

  // What soundness says of one entry.
  lemma {:induction false} Around(t: Tables, size: nat, free: set<nat>, v: Vpn)
    requires Sound(t, size, free)
    ensures Slot(v.i, v.j) in t.last ==>
      v.i in t.mid && t.last[Slot(v.i, v.j)] < size && t.last[Slot(v.i, v.j)] in t.owner
    ensures forall i :: i in t.mid ==> t.mid[i] < size && t.mid[i] in t.owner
    ensures v in t.mapping ==> Slot(v.i, v.j) in t.last
                               && t.mapping[v].page < size && t.mapping[v].page !in free
                               && t.mapping[v].page !in t.owner && t.mapping[v].perm < FLAGS
  {
  }

  // How many tables the walk to v still lacks.
  ghost function Missing(t: Tables, v: Vpn): nat {
    if v.i !in t.mid then 2 else if Slot(v.i, v.j) !in t.last then 1 else 0
  }

  function With(t: Tables, v: Vpn, leaf: Leaf): Tables {
    t.(mapping := t.mapping[v := leaf])
  }

  function Without(t: Tables, v: Vpn): Tables {
    t.(mapping := t.mapping - {v})
  }

  lemma {:induction false} WithoutNothing(t: Tables, v: Vpn)
    requires v !in t.mapping
    ensures Without(t, v) == t
  {
    assert t.mapping - {v} == t.mapping;
  }

  lemma {:induction false} WithOver(t: Tables, v: Vpn, leaf: Leaf)
    ensures With(Without(t, v), v, leaf) == With(t, v, leaf)
  {
    assert (t.mapping - {v})[v := leaf] == t.mapping[v := leaf];
  }

  // ---------- No frame is lost ----------

  // The frames that are free, tables, or mapped.
  ghost function Known(t: Tables, free: set<nat>): set<nat> {
    free + t.owner.Keys + Pages(t.mapping)
  }

  ghost function Pages(m: Mapping): set<nat> {
    set v | v in m :: m[v].page
  }

  lemma {:induction false} PagesAfterRemove(m: Mapping, v: Vpn)
    requires v in m
    ensures Pages(m - {v}) == if Count(m, m[v].page) == 1 then Pages(m) - {m[v].page} else Pages(m)
  {
    var p := m[v].page;
    CountRemove(m, v, p);
    CountZero(m - {v}, p);
    forall q | q in Pages(m) && q != p ensures q in Pages(m - {v}) {
      var w :| w in m && m[w].page == q;
      assert w in m - {v};
    }
  }

  lemma {:induction false} PagesAfterAdd(m: Mapping, v: Vpn, leaf: Leaf)
    requires v !in m
    ensures Pages(m[v := leaf]) == Pages(m) + {leaf.page}
  {
    var m' := m[v := leaf];
    assert v in m';
    forall q | q in Pages(m) ensures q in Pages(m') {
      var w :| w in m && m[w].page == q;
      assert w in m';
    }
  }

  lemma {:induction false} RemoveLosesNone(t: Tables, free: set<nat>, v: Vpn)
    ensures Known(Without(t, v), FreeAfterRemove(free, t.mapping, v)) == Known(t, free)
  {
    if v in t.mapping {
      PagesAfterRemove(t.mapping, v);
    } else {
      WithoutNothing(t, v);
    }
  }

  lemma {:induction false} InsertLosesNone(t: Tables, t': Tables, free: set<nat>, v: Vpn, leaf: Leaf)
    requires Grew(t, t', free) && t'.mapping == t.mapping[v := leaf]
    ensures Known(t', FreeAfterInsert(free - t'.owner.Keys, t.mapping, v, leaf.page)) == Known(t, free) + {leaf.page}
  {
    var m := t.mapping;
    PagesAfterAdd(m - {v}, v, leaf);
    assert (m - {v})[v := leaf] == m[v := leaf];
    if v in m {
      PagesAfterRemove(m, v);
      assert m[v].page in Pages(m);
    } else {
      assert m - {v} == m;
    }
  }

  lemma {:induction false} GrowthLosesNone(t: Tables, t': Tables, free: set<nat>)
    requires Grew(t, t', free) && t'.mapping == t.mapping
    ensures Known(t', free - t'.owner.Keys) == Known(t, free)
  {
  }

  // A zeroed frame becomes the second-level table of directory entry i.
  lemma {:induction false} AddMid(t: Tables, nbase: nat, size: nat, free: set<nat>, i: nat, f: nat)
    requires Sound(t, size, free) && Unclaimed(t, size, free, f) && i < BOOT_ENTRY && i !in t.mid
    ensures Sound(WithMid(t, i, f), size, free)
    ensures forall g, k | g in WithMid(t, i, f).owner ::
      Word(WithMid(t, i, f), nbase, g, k) == if g == f then 0 else Word(t, nbase, g, k)
  {
  }

  // A zeroed frame becomes the last-level table of slot s.
  lemma {:induction false} AddLast(t: Tables, nbase: nat, size: nat, free: set<nat>, s: Slot, f: nat)
    requires Sound(t, size, free) && Unclaimed(t, size, free, f)
    requires s.i in t.mid && s.j < WORDS && s !in t.last
    ensures forall g, k | g in WithLast(t, s, f).owner ::
      Word(WithLast(t, s, f), nbase, g, k)
      == if g == f then 0 else if g == t.mid[s.i] && k == s.j then Pde(f, nbase) else Word(t, nbase, g, k)
  {
  }

  lemma {:induction false} AddLastSound(t: Tables, size: nat, free: set<nat>, s: Slot, f: nat)
    requires Sound(t, size, free) && Unclaimed(t, size, free, f)
    requires s.i in t.mid && s.j < WORDS && s !in t.last
    ensures Sound(WithLast(t, s, f), size, free)
  {
  }

  // Entering a leaf changes one word.
  lemma {:induction false} SetLeaf(t: Tables, nbase: nat, size: nat, free: set<nat>, v: Vpn, leaf: Leaf)
    requires Sound(t, size, free) && v.InRange() && Slot(v.i, v.j) in t.last
    requires leaf.perm < FLAGS && leaf.page < size && leaf.page !in free && leaf.page !in t.owner
    ensures var t' := With(t, v, leaf);
      && Sound(t', size, free)
      && forall g, k | g in t.owner ::
        Word(t', nbase, g, k)
        == if g == t.last[Slot(v.i, v.j)] && k == v.k then Pte(leaf, nbase) else Word(t, nbase, g, k)
  {
  }

  // So does removing one; its page may go back to the free frames if it was
  // the only leaf that maps it.
  lemma {:induction false} DropLeaf(t: Tables, nbase: nat, size: nat, free: set<nat>, v: Vpn)
    requires Sound(t, size, free) && v in t.mapping
    ensures var t' := Without(t, v);
      && Sound(t', size, FreeAfterRemove(free, t.mapping, v))
      && forall g, k | g in t.owner ::
        Word(t', nbase, g, k)
        == if g == t.last[Slot(v.i, v.j)] && k == v.k then 0 else Word(t, nbase, g, k)
  {
    CountRemove(t.mapping, v, t.mapping[v].page);
    CountZero(t.mapping - {v}, t.mapping[v].page);
  }

  // ---------- Reference counts ----------

  // A frame taken from the free ones is nobody's.
  lemma {:induction false} TakenIsUnclaimed(t: Tables, size: nat, free: set<nat>, f: nat)
    requires Sound(t, size, free) && f in free
    ensures Sound(t, size, free - {f}) && Unclaimed(t, size, free - {f}, f)
    ensures f < size && forall g :: g in t.owner ==> g != f
  {
  }

  // A table counts one reference, any other page one for each entry mapping
  // it, and page q another d on top.
  ghost predicate Refs(refs: seq<int>, t: Tables, q: nat, d: nat) {
    forall p :: 0 <= p < |refs| ==>
      refs[p] == if p in t.owner then 1 else Count(t.mapping, p) + if p == q then d else 0
  }

  lemma {:induction false} RefsOfTable(refs: seq<int>, t: Tables, size: nat, free: set<nat>, f: nat)
    requires Unclaimed(t, size, free, f) && |refs| == size && Refs(refs, t, 0, 0)
    ensures Refs(refs[f := 1], t, f, 1)
  {
    CountZero(t.mapping, f);
  }

  lemma {:induction false} RefsOwned(refs: seq<int>, t: Tables, size: nat, free: set<nat>, f: nat, t': Tables)
    requires Unclaimed(t, size, free, f) && Refs(refs, t, f, 1)
    requires t'.owner.Keys == t.owner.Keys + {f} && t'.mapping == t.mapping
    ensures Refs(refs, t', 0, 0)
  {
    CountZero(t.mapping, f);
  }

  // A reference that no entry makes yet, and the same taken back.
  lemma {:induction false} RefsExtra(refs: seq<int>, t: Tables, page: nat)
    requires page < |refs| && page !in t.owner
    ensures Refs(refs, t, 0, 0) ==> Refs(refs[page := refs[page] + 1], t, page, 1)
    ensures Refs(refs, t, page, 1) ==> Refs(refs[page := refs[page] - 1], t, page, 0)
  {
  }

  // Entry v, clear or already mapping the page, maps it now.
  lemma {:induction false} RefsSet(refs: seq<int>, t: Tables, v: Vpn, leaf: Leaf)
    requires Refs(refs, t, leaf.page, if v in t.mapping then 0 else 1) && leaf.page !in t.owner
    requires v in t.mapping ==> t.mapping[v].page == leaf.page
    ensures Refs(refs, With(t, v, leaf), 0, 0)
  {
    forall p: nat ensures Count(t.mapping[v := leaf], p)
      == Count(t.mapping, p) + if v !in t.mapping && leaf.page == p then 1 else 0
    {
      if v in t.mapping {
        CountReplace(t.mapping, v, leaf, p);
      } else {
        CountAdd(t.mapping, v, leaf, p);
      }
    }
  }

  lemma {:induction false} RefsDrop(refs: seq<int>, t: Tables, v: Vpn, q: nat, d: nat)
    requires Refs(refs, t, q, d) && v in t.mapping
    requires t.mapping[v].page < |refs| && t.mapping[v].page !in t.owner
    requires d > 0 ==> t.mapping[v].page != q
    ensures var p := t.mapping[v].page;
      && refs[p] == Count(t.mapping, p)
      && Refs(refs[p := refs[p] - 1], Without(t, v), q, d)
  {
    forall p: nat ensures Count(t.mapping, p)
      == Count(t.mapping - {v}, p) + if t.mapping[v].page == p then 1 else 0
    {
      CountRemove(t.mapping, v, p);
    }
  }
}

module PageTable {
  import opened Arith
  import opened Bits
  import opened Sv39
  import opened Mappings
  import opened Tables
  import opened Wrappers

  const E_NO_MEM: int := 4

  class PageTables {
    const nbase: nat            // page number of frame 0
    const pgdir: array<nat>
    const frames: array2<nat>   // physical memory, as words
    const ref: array<int>
    var free: set<nat>
    ghost var tables: Tables

    ghost predicate Shape() {
      pgdir.Length == WORDS && frames.Length1 == WORDS && ref.Length == frames.Length0
    }

    ghost predicate DirHolds(t: Tables)
      reads pgdir
      requires Shape()
    {
      forall i :: 0 <= i < BOOT_ENTRY ==> pgdir[i] == DirWord(t, nbase, i)
    }

    ghost predicate TablesHold(t: Tables)
      reads frames
      requires Shape()
    {
      forall f, k :: f in t.owner && 0 <= f < frames.Length0 && 0 <= k < WORDS ==>
        frames[f, k] == Word(t, nbase, f, k)
    }

    ghost predicate Words()
      reads this, pgdir, frames
    {
      Shape() && Sound(tables, frames.Length0, free) && DirHolds(tables) && TablesHold(tables)
    }

    // Valid, but for d references to page q that no entry makes.
    ghost predicate ValidBut(q: nat, d: nat)
      reads this, pgdir, frames, ref
    {
      Words() && Refs(ref[..], tables, q, d)
    }

    ghost predicate Valid()
      reads this, pgdir, frames, ref
    {
      ValidBut(0, 0)
    }

    // The boot directory, empty but for its top entry; the allocator may hand
    // out the given frames.
    constructor (size: nat, base: nat, avail: set<nat>, boot: nat)
      requires forall f :: f in avail ==> f < size
      ensures Valid() && tables.mapping == map[] && tables.owner == map[]
      ensures nbase == base && frames.Length0 == size && free == avail && pgdir[BOOT_ENTRY] == boot
      ensures fresh(pgdir) && fresh(frames) && fresh(ref)
    {
      nbase := base;
      pgdir := new nat[WORDS](i => if i == BOOT_ENTRY then boot else 0);
      frames := new nat[size, WORDS];
      ref := new int[size](i => 0);
      free := avail;
      tables := Tables(map[], map[], map[], map[]);
      forall p: nat ensures Count(map[], p) == 0 {
        CountZero(map[], p);
      }
    }

    // ---------- The hardware's view ----------

    function FrameOf(pte: nat): Option<nat>
    {
      var ppn := Ppn(PteAddr(pte));
      if IsValid(pte) && nbase <= ppn < nbase + frames.Length0 then Some(ppn - nbase) else None
    }

    // The table a word leads the hardware to: V set, R, W and X clear, and the
    // page number from bit 10 on. With any of these three set it is a leaf.
    function Next(w: nat): Option<nat>
    {
      if w % 16 == 1 && nbase <= w / 1024 < nbase + frames.Length0 then Some(w / 1024 - nbase) else None
    }

    // The last-level entry reached by the Sv39 walk, read off the words in
    // memory, if it is valid.
    function Walk(v: Vpn): Option<nat>
      reads this, pgdir, frames
      requires v.InRange() && pgdir.Length == WORDS && frames.Length1 == WORDS
    {
      match Next(pgdir[v.i])
      case None => None
      case Some(f) =>
        match Next(frames[f, v.j])
        case None => None
        case Some(g) => if frames[g, v.k] % 2 == 1 then Some(frames[g, v.k]) else None
    }

    lemma {:induction false} PdeDecodes(f: nat)
      requires f < frames.Length0
      ensures IsValid(Pde(f, nbase)) && FrameOf(Pde(f, nbase)) == Some(f)
      ensures Pde(f, nbase) % 1024 == 17 && Next(Pde(f, nbase)) == Some(f)
    {
      EntryDecodes(f + nbase, PTE_U + PTE_V);
      EntryWord(f + nbase, PTE_U + PTE_V);
      DivideOut(16, 64 * (f + nbase) + 1, 1);
    }

    lemma {:induction false} NoEntry()
      ensures !IsValid(0) && FrameOf(0) == None
    {
      EntryDecodes(0, 0);
    }

    lemma {:induction false} DirStep(i: nat)
      requires Shape() && Sound(tables, frames.Length0, free) && DirHolds(tables) && i < BOOT_ENTRY
      ensures FrameOf(pgdir[i]) == Next(pgdir[i]) == if i in tables.mid then Some(tables.mid[i]) else None
      ensures pgdir[i] == 0 || pgdir[i] % 1024 == 17
      ensures IsValid(pgdir[i]) <==> i in tables.mid
    {
      NoEntry();
      if i in tables.mid {
        PdeDecodes(tables.mid[i]);
      }
    }

    lemma {:induction false} MidStep(s: Slot)
      requires Shape() && Sound(tables, frames.Length0, free) && TablesHold(tables) && s.i in tables.mid && s.j < WORDS
      ensures var w := frames[tables.mid[s.i], s.j];
        && FrameOf(w) == Next(w) == (if s in tables.last then Some(tables.last[s]) else None)
        && (w == 0 || w % 1024 == 17) && (IsValid(w) <==> s in tables.last)
    {
      NoEntry();
      assert Slot(s.i, s.j) == s;
      assert frames[tables.mid[s.i], s.j] == MidWord(tables, nbase, s);
      if s in tables.last {
        PdeDecodes(tables.last[s]);
      }
    }

    lemma {:induction false} LastStep(v: Vpn)
      requires Shape() && Sound(tables, frames.Length0, free) && TablesHold(tables)
      requires v.InRange() && Slot(v.i, v.j) in tables.last
      ensures var w := frames[tables.last[Slot(v.i, v.j)], v.k];
        && w == LastWord(tables, nbase, v)
        && (IsValid(w) <==> v in tables.mapping) && (w % 2 == 1 <==> v in tables.mapping)
        && (v in tables.mapping ==> FrameOf(w) == Some(tables.mapping[v].page) && w == LeafWord(tables.mapping[v]))
    {
      hide PteCreate, IsValid, PteAddr, Ppn;
      NoEntry();
      assert Vpn(v.i, v.j, v.k) == v;
      assert frames[tables.last[Slot(v.i, v.j)], v.k] == LastWord(tables, nbase, v);
      if v in tables.mapping {
        EntryDecodes(tables.mapping[v].page + nbase, tables.mapping[v].perm);
        EntryWord(tables.mapping[v].page + nbase, tables.mapping[v].perm);
      }
    }

    // The page number from bit 10 on, the permissions below it, and V set.
    function LeafWord(leaf: Leaf): nat {
      1024 * (leaf.page + nbase) + leaf.perm + if leaf.perm % 2 == 0 then 1 else 0
    }

    // Follow the directory entry, a second-level entry, a leaf: pte2page, if valid.
    method DirEntry(i: nat) returns (f: Option<nat>)
      requires Shape() && Sound(tables, frames.Length0, free) && DirHolds(tables) && i < BOOT_ENTRY
      ensures f == if i in tables.mid then Some(tables.mid[i]) else None
    {
      DirStep(i);
      f := if IsValid(pgdir[i]) then FrameOf(pgdir[i]) else None;
    }

    method MidEntry(f1: nat, j: nat, ghost s: Slot) returns (f: Option<nat>)
      requires Shape() && Sound(tables, frames.Length0, free) && TablesHold(tables)
      requires s.i in tables.mid && f1 == tables.mid[s.i] && j == s.j < WORDS
      ensures f == if s in tables.last then Some(tables.last[s]) else None
    {
      MidStep(s);
      f := if IsValid(frames[f1, j]) then FrameOf(frames[f1, j]) else None;
    }

    method LastEntry(entry: Slot, ghost v: Vpn) returns (page: Option<nat>)
      requires Shape() && Sound(tables, frames.Length0, free) && TablesHold(tables) && EntryOf(entry, v)
      ensures page == if v in tables.mapping then Some(tables.mapping[v].page) else None
    {
      LastStep(v);
      page := if IsValid(frames[entry.i, entry.j]) then FrameOf(frames[entry.i, entry.j]) else None;
    }

    // The word of v is word j of frame i.
    ghost predicate EntryOf(entry: Slot, v: Vpn)
      reads this
    {
      && v.InRange() && Slot(v.i, v.j) in tables.last
      && entry == Slot(tables.last[Slot(v.i, v.j)], v.k)
    }

    // The words in memory say exactly what the mapping says.
    lemma {:induction false} WalkIsMapping(v: Vpn)
      requires Valid() && v.InRange() && v.i < BOOT_ENTRY
      ensures Walk(v) == if v in tables.mapping then Some(LeafWord(tables.mapping[v])) else None
    {
      DirStep(v.i);
      if v.i in tables.mid {
        MidStep(Slot(v.i, v.j));
        if Slot(v.i, v.j) in tables.last {
          LastStep(v);
        }
      }
    }

    // In the tables of the first two levels a word is clear, or its ten low bits
    // are V and U.
    lemma {:induction false} TableEntriesPlain(i: nat, j: nat)
      requires Valid() && i < BOOT_ENTRY && j < WORDS
      ensures pgdir[i] == 0 || (pgdir[i] % 1024 == 17 && Next(pgdir[i]).Some?)
      ensures Next(pgdir[i]).Some? ==> var w := frames[Next(pgdir[i]).value, j];
        w == 0 || (w % 1024 == 17 && Next(w).Some?)
    {
      DirStep(i);
      if i in tables.mid {
        MidStep(Slot(i, j));
      }
    }

    // A valid leaf in memory names neither a free frame nor a table, and its
    // page counts the entries that map it.
    lemma {:induction false} LeafNamesPage(v: Vpn)
      requires Valid() && v.InRange() && v.i < BOOT_ENTRY && Walk(v).Some?
      ensures var p := Walk(v).value / 1024 - nbase;
        && 0 <= p < frames.Length0 && p !in free && p !in tables.owner
        && ref[p] == Count(tables.mapping, p) > 0
    {
      hide Owned, Mapped, DirHolds, TablesHold, Walk;
      WalkIsMapping(v);
      Around(tables, frames.Length0, free, v);
      CountZero(tables.mapping, tables.mapping[v].page);
    }

    // ---------- Allocation ----------

    // alloc_page with swapping off: some free frame, or none if none is left.
    method AllocPage() returns (p: Option<nat>)
      modifies this`free
      ensures p.None? <==> old(free) == {}
      ensures p.None? ==> free == old(free)
      ensures p.Some? ==> p.value in old(free) && free == old(free) - {p.value}
    {
      if free == {} {
        return None;
      }
      var f :| f in free;
      free := free - {f};
      return Some(f);
    }

    // set_page_ref(page, 1) and the memset of a new table.
    method ClearTable(f: nat)
      requires frames.Length1 == WORDS && f < frames.Length0
      modifies frames
      ensures forall k :: 0 <= k < WORDS ==> frames[f, k] == 0
      ensures forall g, k :: 0 <= g < frames.Length0 && g != f && 0 <= k < WORDS ==> frames[g, k] == old(frames[g, k])
    {
      forall k | 0 <= k < WORDS {
        frames[f, k] := 0;
      }
    }

    // Frame f is a zeroed table that nothing leads to yet.
    ghost predicate Blank(f: nat)
      reads this, pgdir, frames, ref
    {
      && ValidBut(f, 1) && Unclaimed(tables, frames.Length0, free, f)
      && (forall k :: 0 <= k < WORDS ==> frames[f, k] == 0)
    }

    // A frame for a new table: taken, zeroed and referenced once.
    method NewTable() returns (p: Option<nat>)
      requires Valid()
      modifies this`free, frames, ref
      ensures p.None? <==> old(free) == {}
      ensures p.None? ==> free == old(free) && Valid()
      ensures p.Some? ==> p.value in old(free) && free == old(free) - {p.value} && Blank(p.value)
      ensures forall f, k | 0 <= f < frames.Length0 && 0 <= k < WORDS ::
        f !in old(free) && f !in old(tables.owner) ==> frames[f, k] == old(frames[f, k])
    {
      hide Owned, Mapped;
      p := AllocPage();
      if p.Some? {
        TakenIsUnclaimed(tables, frames.Length0, old(free), p.value);
        RefsOfTable(ref[..], tables, frames.Length0, free, p.value);
        ref[p.value] := 1;
        ClearTable(p.value);
      }
    }

    // A second-level table for directory entry i.
    method MakeMid(i: nat) returns (ok: bool)
      requires Valid() && i < BOOT_ENTRY && i !in tables.mid
      modifies this`free, this`tables, pgdir, frames, ref
      ensures Valid() && (ok <==> old(free) != {})
      ensures !ok ==> free == old(free) && tables == old(tables)
      ensures ok ==> |free| == |old(free)| - 1 && Added(old(tables), tables, old(free), free)
                     && i in tables.mid && tables.last == old(tables.last)
      ensures forall f, k | 0 <= f < frames.Length0 && 0 <= k < WORDS ::
        f !in old(free) && f !in old(tables.owner) ==> frames[f, k] == old(frames[f, k])
      ensures pgdir[BOOT_ENTRY] == old(pgdir[BOOT_ENTRY])
    {
      hide Owned, Mapped;
      var page := NewTable();
      if page.None? {
        return false;
      }
      AddedOne(tables, frames.Length0, old(free), page.value, WithMid(tables, i, page.value), MidOf(i));
      EnterMid(i, page.value);
      return true;
    }

    method EnterMid(i: nat, f: nat)
      requires Blank(f) && i < BOOT_ENTRY && i !in tables.mid
      modifies this`tables, pgdir
      ensures Valid() && tables == WithMid(old(tables), i, f)
      ensures pgdir[BOOT_ENTRY] == old(pgdir[BOOT_ENTRY])
    {
      hide Owned, Mapped;
      AddMid(tables, nbase, frames.Length0, free, i, f);
      RefsOwned(ref[..], tables, frames.Length0, free, f, WithMid(tables, i, f));
      pgdir[i] := PteCreate(f + nbase, PTE_U + PTE_V);
      tables := WithMid(tables, i, f);
    }

    // A last-level table for slot s, whose word is in frame f1.
    method MakeLast(f1: nat, j: nat, ghost s: Slot) returns (ok: bool)
      requires Valid() && s.i in tables.mid && tables.mid[s.i] == f1 && s.j == j < WORDS && s !in tables.last
      modifies this`free, this`tables, frames, ref
      ensures Valid() && (ok <==> old(free) != {})
      ensures !ok ==> free == old(free) && tables == old(tables)
      ensures ok ==> |free| == |old(free)| - 1 && Added(old(tables), tables, old(free), free)
                     && s in tables.last && tables.mid == old(tables.mid)
      ensures forall f, k | 0 <= f < frames.Length0 && 0 <= k < WORDS ::
        f !in old(free) && f !in old(tables.owner) ==> frames[f, k] == old(frames[f, k])
    {
      hide Owned, Mapped;
      Around(tables, frames.Length0, free, Vpn(s.i, s.j, 0));
      var page := NewTable();
      if page.None? {
        return false;
      }
      AddedOne(tables, frames.Length0, old(free), page.value, WithLast(tables, s, page.value), LastOf(s));
      EnterLast(f1, j, s, page.value);
      return true;
    }

    method EnterLast(f1: nat, j: nat, ghost s: Slot, f: nat)
      requires Blank(f) && s.i in tables.mid && tables.mid[s.i] == f1 && s.j == j < WORDS && s !in tables.last
      modifies this`tables, frames
      ensures Valid() && tables == WithLast(old(tables), s, f)
      ensures forall g, k | 0 <= g < frames.Length0 && 0 <= k < WORDS ::
        g != f1 ==> frames[g, k] == old(frames[g, k])
    {
      hide Owned, Mapped;
      Around(tables, frames.Length0, free, Vpn(s.i, s.j, 0));
      AddLastSound(tables, frames.Length0, free, s, f);
      AddLast(tables, nbase, frames.Length0, free, s, f);
      RefsOwned(ref[..], tables, frames.Length0, free, f, WithLast(tables, s, f));
      frames[f1, j] := PteCreate(f + nbase, PTE_U + PTE_V);
      tables := WithLast(tables, s, f);
    }

    // ---------- Lookup ----------

    // get_pte: the frame and index of the last-level entry.
    method GetPte(la: nat, create: bool) returns (entry: Option<Slot>)
      requires Valid() && VpnOf(la).i < BOOT_ENTRY
      modifies this`free, this`tables, pgdir, frames, ref
      ensures Valid() && Found(entry, VpnOf(la), create, old(tables), old(free))
      ensures forall f, k | 0 <= f < frames.Length0 && 0 <= k < WORDS ::
        f !in old(free) && f !in old(tables.owner) ==> frames[f, k] == old(frames[f, k])
      ensures pgdir[BOOT_ENTRY] == old(pgdir[BOOT_ENTRY])
    {
      entry := FindEntry(VpnOf(la), create);
    }

    // The entry is found if the tables on the way exist or can be made.
    ghost predicate Found(entry: Option<Slot>, v: Vpn, create: bool, was: Tables, avail: set<nat>)
      reads this
    {
      && Added(was, tables, avail, free)
      && (entry.Some? <==> Missing(was, v) <= if create then |avail| else 0)
      && (entry.Some? ==> EntryOf(entry.value, v) && |free| == |avail| - Missing(was, v))
      && (entry.None? ==> Slot(v.i, v.j) !in tables.last && (create ==> free == {}))
      && (!create ==> tables == was && free == avail)
    }

    method FindEntry(v: Vpn, create: bool) returns (entry: Option<Slot>)
      requires Valid() && v.InRange() && v.i < BOOT_ENTRY
      modifies this`free, this`tables, pgdir, frames, ref
      ensures Valid() && Found(entry, v, create, old(tables), old(free))
      ensures forall f, k | 0 <= f < frames.Length0 && 0 <= k < WORDS ::
        f !in old(free) && f !in old(tables.owner) ==> frames[f, k] == old(frames[f, k])
      ensures pgdir[BOOT_ENTRY] == old(pgdir[BOOT_ENTRY])
    {
      hide Owned, Mapped, Added;
      ghost var t, avail := tables, free;
      Around(t, frames.Length0, avail, v);
      var f1 := FindMid(v.i, create);
      if f1.None? {
        return None;
      }
      ghost var t1, avail1 := tables, free;
      AddedApart(t, t1, avail, avail1);
      var f0 := FindLast(f1.value, v.j, create, Slot(v.i, v.j));
      AddedTwice(t, t1, tables, avail, avail1, free);
      if f0.None? {
        return None;
      }
      return Some(Slot(f0.value, v.k));
    }

    method FindMid(i: nat, create: bool) returns (f: Option<nat>)
      requires Valid() && i < BOOT_ENTRY
      modifies this`free, this`tables, pgdir, frames, ref
      ensures Valid() && Added(old(tables), tables, old(free), free) && tables.last == old(tables.last)
      ensures f.Some? <==> i in old(tables.mid) || (create && |old(free)| > 0)
      ensures f.Some? ==> i in tables.mid && f.value == tables.mid[i]
                          && |free| == |old(free)| - if i in old(tables.mid) then 0 else 1
      ensures f.None? || i in old(tables.mid) ==> tables == old(tables) && free == old(free)
      ensures forall f, k | 0 <= f < frames.Length0 && 0 <= k < WORDS ::
        f !in old(free) && f !in old(tables.owner) ==> frames[f, k] == old(frames[f, k])
      ensures pgdir[BOOT_ENTRY] == old(pgdir[BOOT_ENTRY])
    {
      hide Owned, Mapped, Added;
      AddedNothing(tables, frames.Length0, free);
      f := DirEntry(i);
      if f.None? && create {
        var ok := MakeMid(i);
        if ok {
          f := DirEntry(i);
        }
      }
    }

    method FindLast(f1: nat, j: nat, create: bool, ghost s: Slot) returns (f: Option<nat>)
      requires Valid() && s.i in tables.mid && f1 == tables.mid[s.i] && s.j == j < WORDS
      modifies this`free, this`tables, frames, ref
      ensures Valid() && Added(old(tables), tables, old(free), free)
      ensures f.Some? <==> s in old(tables.last) || (create && |old(free)| > 0)
      ensures f.Some? ==> s in tables.last && f.value == tables.last[s]
                          && |free| == |old(free)| - if s in old(tables.last) then 0 else 1
      ensures f.None? || s in old(tables.last) ==> tables == old(tables) && free == old(free)
      ensures forall f, k | 0 <= f < frames.Length0 && 0 <= k < WORDS ::
        f !in old(free) && f !in old(tables.owner) ==> frames[f, k] == old(frames[f, k])
    {
      hide Owned, Mapped, Added;
      AddedNothing(tables, frames.Length0, free);
      f := MidEntry(f1, j, s);
      if f.None? && create {
        var ok := MakeLast(f1, j, s);
        if ok {
          f := MidEntry(f1, j, s);
        }
      }
    }

    // get_page
    method GetPage(la: nat) returns (page: Option<nat>)
      requires Valid() && VpnOf(la).i < BOOT_ENTRY
      modifies this`free, this`tables, pgdir, frames, ref
      ensures Valid() && tables == old(tables) && free == old(free)
      ensures page == if VpnOf(la) in tables.mapping then Some(tables.mapping[VpnOf(la)].page) else None
      ensures forall f, k | 0 <= f < frames.Length0 && 0 <= k < WORDS ::
        f !in old(free) && f !in old(tables.owner) ==> frames[f, k] == old(frames[f, k])
      ensures pgdir[BOOT_ENTRY] == old(pgdir[BOOT_ENTRY])
    {
      page := None;
      var entry := GetPte(la, false);
      if entry.Some? {
        page := LastEntry(entry.value, VpnOf(la));
      }
    }

    // ---------- Removal ----------

    // page_remove_pte. Page q may be about to gain d entries.
    method RemovePte(entry: Slot, ghost v: Vpn, ghost q: nat, ghost d: nat)
      requires ValidBut(q, d) && EntryOf(entry, v)
      requires d > 0 && v in tables.mapping ==> tables.mapping[v].page != q
      modifies this`free, this`tables, frames, ref
      ensures ValidBut(q, d)
      ensures tables == Without(old(tables), v)
      ensures free == FreeAfterRemove(old(free), old(tables.mapping), v)
      ensures forall g, k | 0 <= g < frames.Length0 && 0 <= k < WORDS ::
        g != entry.i ==> frames[g, k] == old(frames[g, k])
    {
      hide Owned, Mapped;
      Around(tables, frames.Length0, free, v);
      var page := LastEntry(entry, v);
      if page.Some? {
        DropLeaf(tables, nbase, frames.Length0, free, v);
        RefsDrop(ref[..], tables, v, q, d);
        DropRef(page.value);
        WriteLeaf(entry, 0, Without(tables, v));
      } else {
        WithoutNothing(tables, v);
      }
    }

    // page_ref_inc and page_ref_dec
    method IncRef(page: nat)
      requires page < ref.Length
      modifies ref
      ensures ref[..] == old(ref[..])[page := old(ref[page]) + 1]
    {
      ref[page] := ref[page] + 1;
    }

    method DecRef(page: nat)
      requires page < ref.Length
      modifies ref
      ensures ref[..] == old(ref[..])[page := old(ref[page]) - 1]
    {
      ref[page] := ref[page] - 1;
    }

    // page_ref_dec, and free_page if that was the last reference.
    method DropRef(page: nat)
      requires page < ref.Length
      modifies this`free, ref
      ensures ref[..] == old(ref[..])[page := old(ref[page]) - 1]
      ensures free == if old(ref[page]) == 1 then old(free) + {page} else old(free)
    {
      DecRef(page);
      if ref[page] == 0 {
        free := free + {page};
      }
    }

    // Overwrite one word of a table.
    method WriteLeaf(entry: Slot, w: nat, ghost t: Tables)
      requires Shape() && DirHolds(tables) && TablesHold(tables) && Sound(t, frames.Length0, free)
      requires entry.i < frames.Length0 && entry.j < WORDS
      requires t.mid == tables.mid && t.owner == tables.owner
      requires forall g, k | g in t.owner ::
        Word(t, nbase, g, k) == if g == entry.i && k == entry.j then w else Word(tables, nbase, g, k)
      modifies this`tables, frames
      ensures Words() && tables == t
      ensures forall g, k | 0 <= g < frames.Length0 && 0 <= k < WORDS ::
        g != entry.i ==> frames[g, k] == old(frames[g, k])
    {
      frames[entry.i, entry.j] := w;
      tables := t;
    }

    // page_remove
    method PageRemove(la: nat)
      requires Valid() && VpnOf(la).i < BOOT_ENTRY
      modifies this`free, this`tables, pgdir, frames, ref
      ensures Valid()
      ensures tables == Without(old(tables), VpnOf(la))
      ensures free == FreeAfterRemove(old(free), old(tables.mapping), VpnOf(la))
      ensures Known(tables, free) == old(Known(tables, free))
      ensures forall f, k | 0 <= f < frames.Length0 && 0 <= k < WORDS ::
        f !in old(free) && f !in old(tables.owner) ==> frames[f, k] == old(frames[f, k])
      ensures pgdir[BOOT_ENTRY] == old(pgdir[BOOT_ENTRY])
    {
      hide Owned, Mapped, Known, Added, Grew, VpnOf;
      Around(tables, frames.Length0, free, VpnOf(la));
      RemoveLosesNone(tables, free, VpnOf(la));
      var entry := GetPte(la, false);
      if entry.Some? {
        RemovePte(entry.value, VpnOf(la), 0, 0);
      } else {
        WithoutNothing(tables, VpnOf(la));
      }
    }

    // ---------- Insertion ----------

    // page_insert, for flag words that leave the page number alone.
    method PageInsert(page: nat, la: nat, perm: nat) returns (rc: int)
      requires Valid() && VpnOf(la).i < BOOT_ENTRY
      requires page < frames.Length0 && page !in free && page !in tables.owner
      requires Or(page + nbase, Quotient(perm, FLAGS)) == page + nbase
      modifies this`free, this`tables, pgdir, frames, ref
      ensures Valid() && rc == if Missing(old(tables), VpnOf(la)) <= |old(free)| then 0 else -E_NO_MEM
      ensures Grew(old(tables), tables, old(free))
      ensures rc != 0 ==> free == {} && tables.mapping == old(tables.mapping)
      ensures rc == 0 ==> var v, m := VpnOf(la), old(tables.mapping);
        && tables.mapping == m[v := Leaf(page, perm % FLAGS)]
        && free == FreeAfterInsert(old(free) - tables.owner.Keys, m, v, page)
      ensures Known(tables, free) == old(Known(tables, free)) + if rc == 0 then {page} else {}
      ensures forall f, k | 0 <= f < frames.Length0 && 0 <= k < WORDS ::
        f !in old(free) && f !in old(tables.owner) ==> frames[f, k] == old(frames[f, k])
      ensures pgdir[BOOT_ENTRY] == old(pgdir[BOOT_ENTRY])
    {
      hide Owned, Mapped, Known, FreeAfterInsert, VpnOf, DirHolds, TablesHold, Refs;
      var v := VpnOf(la);
      ghost var t, avail := tables, free;
      var entry := GetPte(la, true);
      if entry.None? {
        GrowthLosesNone(t, tables, avail);
        return -E_NO_MEM;
      }
      WithOver(tables, v, Leaf(page, perm % FLAGS));
      AddedApart(t, tables, avail, free);
      Around(tables, frames.Length0, free, v);
      Claim(entry.value, v, page);
      SetEntry(entry.value, v, page, perm);
      InsertLosesNone(t, tables, avail, v, Leaf(page, perm % FLAGS));
      return 0;
    }

    // Count the new reference and let go of any other page mapped so far.
    method Claim(entry: Slot, ghost v: Vpn, page: nat)
      requires Valid() && EntryOf(entry, v)
      requires page < frames.Length0 && page !in free && page !in tables.owner
      modifies this`free, this`tables, frames, ref
      ensures Claimed(v, page) && EntryOf(entry, v)
      ensures free == FreeAfterInsert(old(free), old(tables.mapping), v, page)
      ensures tables == old(tables) || tables == Without(old(tables), v)
      ensures forall g, k | 0 <= g < frames.Length0 && 0 <= k < WORDS ::
        g != entry.i ==> frames[g, k] == old(frames[g, k])
    {
      hide Owned, Mapped;
      RefsExtra(ref[..], tables, page);
      IncRef(page);
      var p := LastEntry(entry, v);
      if p.Some? {
        if p.value == page {
          RefsExtra(ref[..], tables, page);
          DecRef(page);
        } else {
          RemovePte(entry, v, page, 1);
        }
      }
    }

    // Entry v is clear, or maps the page already; the page's new reference counts.
    ghost predicate Claimed(v: Vpn, page: nat)
      reads this, pgdir, frames, ref
    {
      && ValidBut(page, if v in tables.mapping then 0 else 1)
      && page < frames.Length0 && page !in free && page !in tables.owner
      && (v in tables.mapping ==> tables.mapping[v].page == page)
    }

    // The new word of the entry.
    method SetEntry(entry: Slot, ghost v: Vpn, page: nat, perm: nat)
      requires Claimed(v, page) && EntryOf(entry, v) && Or(page + nbase, Quotient(perm, FLAGS)) == page + nbase
      modifies this`tables, frames
      ensures Valid()
      ensures tables == With(old(tables), v, Leaf(page, perm % FLAGS))
      ensures forall g, k | 0 <= g < frames.Length0 && 0 <= k < WORDS ::
        g != entry.i ==> frames[g, k] == old(frames[g, k])
    {
      hide Owned, Mapped;
      Around(tables, frames.Length0, free, v);
      ghost var leaf := Leaf(page, perm % FLAGS);
      SetLeaf(tables, nbase, frames.Length0, free, v, leaf);
      RefsSet(ref[..], tables, v, leaf);
      ValidTwice(page + nbase, perm);
      LowFlags(page + nbase, perm);
      WriteLeaf(entry, PteCreate(page + nbase, Or(PTE_V, perm)), With(tables, v, leaf));
    }
  }
}
