// Swapping of lab3/kern/mm/swap.c over the disk of lab3/kern/driver/ide.c.

module Swap {
  import opened Arith
  import opened Bits
  import opened Sv39
  import opened Clock
  import opened Wrappers

  const PGSIZE: nat := 4096
  const SECTSIZE: nat := 512
  const PAGE_NSECT: nat := 8
  const MAX_DISK_NSECS: nat := 56
  const DISK: nat := 28672          // MAX_DISK_NSECS sectors

  // swapfs_init: pages on the disk.
  function MaxSwapOffset(): nat {
    Quotient(MAX_DISK_NSECS, PAGE_NSECT)
  }

  // The entry left in the page table for virtual page v, and its offset again.
  function EntryOf(v: nat): nat {
    Times(v + 1, 256)
  }

  function OffsetOf(entry: nat): nat {
    Quotient(entry, 256)
  }

  // First byte of the page at an offset.
  function Start(off: nat): nat {
    Times(Times(off, PAGE_NSECT), SECTSIZE)
  }

  lemma {:induction false} StartIs(off: nat)
    ensures Start(off) == Times(off, PGSIZE)
  {
    TimesIsProduct(off, PAGE_NSECT);
    TimesIsProduct(Times(off, PAGE_NSECT), SECTSIZE);
    TimesIsProduct(off, PGSIZE);
  }

  // The entry of a page decodes to an offset of its own, which is never 0, and
  // is not valid as a page-table entry.
  lemma {:induction false} EntryDecodesToOffset(v: nat)
    ensures EntryOf(v) == 256 * (v + 1) && OffsetOf(EntryOf(v)) == v + 1
    ensures !IsValid(EntryOf(v))
  {
    TimesIsProduct(v + 1, 256);
    QuotientOfTimes(v + 1, 256);
    TimesDouble(v + 1, 128);
    TimesSplit(v + 1, v + 1, 128);
    HalfOf(Times(v + 1, 128), false);
    ValidBit(EntryOf(v));
  }

  // The disk holds offsets 1 to 6, each eight sectors that no other page uses.
  lemma {:induction false} Sectors(off: nat)
    ensures MaxSwapOffset() == 7 && Start(off) == 4096 * off
    ensures off < MaxSwapOffset() ==> Start(off) + PGSIZE <= DISK
    ensures forall off' :: off < off' ==> Start(off) + PGSIZE <= Start(off')
  {
    QuotientOfTimes(7, PAGE_NSECT);
    TimesIsProduct(7, PAGE_NSECT);
    TimesIsProduct(7, PGSIZE);
    StartIs(off);
    TimesIsProduct(off, PGSIZE);
    if off < 7 {
      TimesBelow(off, 7, PGSIZE);
    }
    forall off' | off < off' ensures Start(off) + PGSIZE <= Start(off') {
      StartIs(off');
      TimesBelow(off, off', PGSIZE);
    }
  }

  // ---------- What the disk holds ----------

  ghost predicate OnDisk(disk: seq<int>, v: nat, data: seq<int>) {
    && |disk| == DISK && |data| == PGSIZE && Start(v + 1) + PGSIZE <= DISK
    && forall k :: 0 <= k < PGSIZE ==> disk[Start(v + 1) + k] == data[k]
  }

  // The disk with the bytes of data from a position on.
  ghost predicate Written(was: seq<int>, now: seq<int>, start: nat, data: seq<int>) {
    && |now| == |was| && start + |data| <= |was|
    && (forall k :: 0 <= k < |data| ==> now[start + k] == data[k])
    && (forall j :: 0 <= j < |was| && !(start <= j < start + |data|) ==> now[j] == was[j])
  }

  // A page written to the disk is there, and every other page still is.
  lemma {:induction false} WrittenKeeps(was: seq<int>, now: seq<int>, v: nat, data: seq<int>, w: nat, other: seq<int>)
    requires |was| == DISK && |data| == PGSIZE && Written(was, now, Start(v + 1), data)
    ensures OnDisk(now, v, data)
    ensures v != w && OnDisk(was, w, other) ==> OnDisk(now, w, other)
  {
    Sectors(v + 1);
    Sectors(w + 1);
  }

  class SwapSpace {
    const nbase: nat                 // page number of frame 0
    const ide: array<int>
    const memory: array<seq<int>>    // the bytes of each frame
    const vaddr: array<nat>          // pra_vaddr of each frame
    const ptes: array<nat>           // last-level words, by virtual page
    var free: set<nat>
    ghost var resident: map<nat, nat>       // the frame of each mapped virtual page
    ghost var saved: map<nat, seq<int>>     // what was last swapped out from each

    ghost predicate Shape() {
      ide.Length == DISK && vaddr.Length == memory.Length && vaddr != ptes
    }

    // Each mapped page has one frame, which knows its address.
    ghost predicate Residents()
      reads this, memory, vaddr, ptes
      requires Shape()
    {
      && (forall f :: 0 <= f < memory.Length ==> |memory[f]| == PGSIZE)
      && (forall f :: f in free ==> f < memory.Length)
      && forall v :: v in resident ==>
        && v < ptes.Length && resident[v] < memory.Length && resident[v] !in free
        && IsValid(ptes[v]) && Ppn(PteAddr(ptes[v])) == resident[v] + nbase
        && vaddr[resident[v]] / PGSIZE == v
    }

    // Each page swapped out is on the disk, and found there by its entry.
    ghost predicate Savings()
      reads this, ide, ptes
    {
      && (forall v :: v in saved ==> OnDisk(ide[..], v, saved[v]) && v + 1 < MaxSwapOffset())
      && forall v :: 0 <= v < ptes.Length && v !in resident ==> ptes[v] == if v in saved then EntryOf(v) else 0
    }

    ghost predicate Valid()
      reads this, ide, memory, vaddr, ptes
    {
      Shape() && Residents() && Savings()
    }

    // What a process finds in a page it has touched.
    ghost predicate Touched(v: nat)
      reads this
    {
      v in resident || v in saved
    }

    ghost function Contents(v: nat): seq<int>
      reads this, ide, memory, vaddr, ptes
      requires Valid() && Touched(v)
    {
      if v in resident then memory[resident[v]] else saved[v]
    }

    // The offset of the page in frame f is one the disk has.
    ghost predicate Fits(f: nat)
      reads vaddr
    {
      f < vaddr.Length && vaddr[f] / PGSIZE + 1 < MaxSwapOffset()
    }

    // The entry of a page on the disk is not valid and leads to its own offset.
    lemma {:induction false} EvictedEntry(v: nat)
      requires Valid() && v in saved && v !in resident && v < ptes.Length
      ensures !IsValid(ptes[v]) && OffsetOf(ptes[v]) == v + 1 < MaxSwapOffset()
      ensures OnDisk(ide[..], v, saved[v])
    {
      EntryDecodesToOffset(v);
    }

    // ide_write_secs of one page.
    method WriteSecs(secno: nat, f: nat)
      requires Shape() && f < memory.Length && |memory[f]| == PGSIZE && Times(secno, SECTSIZE) + PGSIZE <= DISK
      modifies ide
      ensures Written(old(ide[..]), ide[..], Times(secno, SECTSIZE), memory[f])
    {
      var iobase := Times(secno, SECTSIZE);
      forall k | 0 <= k < PGSIZE {
        ide[iobase + k] := memory[f][k];
      }
    }

    // ide_read_secs of one page.
    method ReadSecs(secno: nat, f: nat)
      requires Shape() && f < memory.Length && Times(secno, SECTSIZE) + PGSIZE <= DISK
      modifies memory
      ensures memory[f] == ide[Times(secno, SECTSIZE)..Times(secno, SECTSIZE) + PGSIZE]
      ensures forall g :: 0 <= g < memory.Length && g != f ==> memory[g] == old(memory[g])
    {
      var iobase := Times(secno, SECTSIZE);
      memory[f] := ide[iobase..iobase + PGSIZE];
    }

    // swap_offset
    method SwapOffset(entry: nat) returns (off: Result<nat>)
      ensures off == if 0 < OffsetOf(entry) < MaxSwapOffset() then Ok(OffsetOf(entry)) else Halt
    {
      var offset := OffsetOf(entry);
      off := if !(offset > 0 && offset < MaxSwapOffset()) then Halt else Ok(offset);
    }

    // swapfs_write and swapfs_read
    method SwapfsWrite(entry: nat, f: nat, ghost v: nat) returns (r: Result<int>)
      requires Shape() && f < memory.Length && |memory[f]| == PGSIZE && entry == EntryOf(v)
      modifies ide
      ensures r == if v + 1 < MaxSwapOffset() then Ok(0) else Halt
      ensures r.Halt? ==> ide[..] == old(ide[..])
      ensures r.Ok? ==> Written(old(ide[..]), ide[..], Start(v + 1), memory[f])
    {
      EntryDecodesToOffset(v);
      Sectors(v + 1);
      var off := SwapOffset(entry);
      if off.Halt? {
        return Halt;
      }
      WriteSecs(Times(off.value, PAGE_NSECT), f);
      return Ok(0);
    }

    method SwapfsRead(entry: nat, f: nat, ghost v: nat, ghost data: seq<int>) returns (r: Result<int>)
      requires Shape() && f < memory.Length && entry == EntryOf(v) && v + 1 < MaxSwapOffset()
      requires OnDisk(ide[..], v, data)
      modifies memory
      ensures r == Ok(0) && memory[f] == data
      ensures forall g :: 0 <= g < memory.Length && g != f ==> memory[g] == old(memory[g])
    {
      EntryDecodesToOffset(v);
      Sectors(v + 1);
      var off := SwapOffset(entry);
      ReadSecs(Times(off.value, PAGE_NSECT), f);
      return Ok(0);
    }

    // One round of swap_out, on the page the manager chose.
    method SwapOut(page: nat, ghost v: nat) returns (r: Result<()>)
      requires Valid() && v in resident && resident[v] == page
      modifies this`free, this`resident, this`saved, ide, ptes
      ensures r.Ok? <==> Fits(page)
      ensures r.Halt? ==> resident == old(resident) && saved == old(saved) && free == old(free)
      ensures r.Ok? ==>
        && Valid() && saved == old(saved)[v := memory[page]] && resident == old(resident) - {v}
        && free == old(free) + {page} && ptes[v] == EntryOf(v) && !IsValid(ptes[v])
      ensures forall u :: 0 <= u < ptes.Length && u != v ==> ptes[u] == old(ptes[u])
    {
      hide OnDisk, Written, Start, IsValid, Ppn, PteAddr, OffsetOf;
      var la := vaddr[page];
      assert IsValid(ptes[la / PGSIZE]);
      var w := SwapfsWrite(Times(la / PGSIZE + 1, 256), page, v);
      if w.Halt? {
        return Halt;
      }
      EntryDecodesToOffset(v);
      forall u, other | OnDisk(old(ide[..]), u, other) && u != v ensures OnDisk(ide[..], u, other) {
        WrittenKeeps(old(ide[..]), ide[..], v, memory[page], u, other);
      }
      WrittenKeeps(old(ide[..]), ide[..], v, memory[page], v, memory[page]);
      ptes[la / PGSIZE] := Times(la / PGSIZE + 1, 256);
      free := free + {page};
      resident := resident - {v};
      saved := saved[v := memory[page]];
      return Ok(());
    }

    // The frames the manager has queued are those it may give up.
    ghost predicate Queued(q: seq<nat>)
      reads this, vaddr
      requires Shape()
    {
      forall f :: f in q ==>
        f < memory.Length && vaddr[f] / PGSIZE in resident && resident[vaddr[f] / PGSIZE] == f
    }

    // What holds between any two faults.
    ghost predicate Managed(sm: ClockManager)
      reads this, ide, memory, vaddr, ptes, sm, sm.visited
    {
      && Valid() && sm.Valid() && sm.Fifo() && Queued(sm.queue) && memory.Length <= sm.visited.Length
    }

    // The page in frame f went to the disk.
    ghost predicate Gone(f: nat)
      reads this, memory, vaddr
      requires Shape()
    {
      && f < memory.Length && f in free && vaddr[f] / PGSIZE !in resident
      && vaddr[f] / PGSIZE in saved && saved[vaddr[f] / PGSIZE] == memory[f]
    }

    // The page in the first frame of q has gone from the queue, the mapping and
    // memory to the disk.
    ghost predicate Evicted(rest: seq<nat>, q: seq<nat>, given: map<nat, nat>, saves: map<nat, seq<int>>)
      reads this`resident, this`saved, memory, vaddr
    {
      && q != [] && rest == q[1..] && q[0] !in rest && q[0] < memory.Length && q[0] < vaddr.Length
      && var v := vaddr[q[0]] / PGSIZE;
      v in given && given[v] == q[0] && resident == given - {v} && saved == saves[v := memory[q[0]]]
    }

    // swap_out of n pages under the clock: the n pages queued first, as long as
    // the disk has their offsets.
    method SwapOutPages(sm: ClockManager, n: nat) returns (r: Result<()>)
      requires Managed(sm) && n <= |sm.queue|
      modifies this`free, this`resident, this`saved, ide, ptes, sm, sm.visited
      ensures r.Ok? <==> forall j :: 0 <= j < n ==> Fits(old(sm.queue)[j])
      ensures r.Ok? ==> Managed(sm) && sm.queue == old(sm.queue)[n..]
      ensures r.Ok? ==> forall j :: 0 <= j < n ==> Gone(old(sm.queue)[j])
    {
      hide Managed, Fits, Evicted;
      ghost var q := sm.queue;
      QueuedFrames(sm);
      var i := 0;
      while i < n
        invariant i <= n && Shape() && Managed(sm) && sm.queue == q[i..]
        invariant forall j :: 0 <= j < i ==> Gone(q[j]) && Fits(q[j])
      {
        assert q[i..][1..] == q[i + 1..] && q[i..][0] == q[i];
        ghost var was, room, given, saves := sm.queue, free, resident, saved;
        var out := SwapOutFirst(sm);
        if out.Halt? {
          return Halt;
        }
        forall j | 0 <= j <= i ensures Gone(q[j]) {
          if j < i {
            GoneStays(sm.queue, was, room, given, saves, q[j]);
          } else {
            GoneNow(sm.queue, was, given, saves);
          }
        }
        i := i + 1;
      }
      return Ok(());
    }

    lemma {:induction false} QueuedFrames(sm: ClockManager)
      requires Managed(sm)
      ensures Shape() && forall j :: 0 <= j < |sm.queue| ==> sm.queue[j] < memory.Length
    {
      forall j | 0 <= j < |sm.queue| ensures sm.queue[j] < memory.Length {
        assert sm.queue[j] in sm.queue;
      }
    }

    lemma {:induction false} GoneNow(rest: seq<nat>, q: seq<nat>, given: map<nat, nat>, saves: map<nat, seq<int>>)
      requires Shape() && Evicted(rest, q, given, saves) && q[0] in free
      ensures Gone(q[0])
    {
    }

    // What went to the disk before is not what goes now.
    lemma {:induction false} GoneStays(rest: seq<nat>, q: seq<nat>, room: set<nat>, given: map<nat, nat>,
                                       saves: map<nat, seq<int>>, f: nat)
      requires Shape() && Evicted(rest, q, given, saves) && f in room && room <= free && f < memory.Length
      requires var u := vaddr[f] / PGSIZE; u !in given && u in saves && saves[u] == memory[f]
      ensures Gone(f)
    {
    }

    // One round: the page queued first, on the disk with what it held.
    method SwapOutFirst(sm: ClockManager) returns (r: Result<()>)
      requires Managed(sm) && sm.queue != []
      modifies this`free, this`resident, this`saved, ide, ptes, sm, sm.visited
      ensures r.Ok? <==> Fits(old(sm.queue[0]))
      ensures r.Ok? ==> Managed(sm) && Evicted(sm.queue, old(sm.queue), old(resident), old(saved))
      ensures r.Ok? ==> sm.queue == old(sm.queue)[1..] && free == old(free) + {old(sm.queue[0])}
    {
      hide ClockManager.Fifo;
      ghost var rest := sm.queue[1..];
      var page := NextVictim(sm);
      ghost var v := vaddr[page] / PGSIZE;
      StillQueued(rest, page, v);
      r := SwapOut(page, v);
    }

    // The other queued frames do not depend on the one given up.
    lemma {:induction false} StillQueued(rest: seq<nat>, page: nat, v: nat)
      requires Shape() && Queued(rest) && page < memory.Length && v in resident && resident[v] == page && page !in rest
      ensures forall f :: f in rest ==> vaddr[f] / PGSIZE in resident - {v}
    {
    }

    method NextVictim(sm: ClockManager) returns (page: nat)
      requires sm.Valid() && sm.Fifo() && |sm.queue| > 0
      modifies sm, sm.visited
      ensures sm.Valid() && sm.Fifo() && page == old(sm.queue[0]) && sm.queue == old(sm.queue)[1..]
      ensures page !in sm.queue && forall f :: f in old(sm.queue) <==> f == page || f in sm.queue
    {
      hide Round, Chosen, Cleared, Turn, Looked, Without, First, InOrder;
      assert sm.queue == [sm.queue[0]] + sm.queue[1..];
      ghost var k;
      page, k := sm.SwapOutVictim();
    }

    // Frame f is nobody's.
    ghost predicate Claimed(f: nat, sm: ClockManager)
      reads this, sm
    {
      f < memory.Length && f !in free && f !in resident.Values && f !in sm.queue
    }

    // Frame f was free, or else it was the one queued first, and the page that
    // was in it, by the addresses la, is no longer mapped.
    ghost predicate Took(f: nat, room: set<nat>, q: seq<nat>, given: map<nat, nat>, la: seq<nat>,
                         rest: seq<nat>, left: map<nat, nat>)
      reads this`free
    {
      if room != {} then
        f in room && free == room - {f} && rest == q && left == given
      else
        && q != [] && f == q[0] < |la| && free == {} && rest == q[1..]
        && la[f] / PGSIZE in given && given[la[f] / PGSIZE] == f && left == given - {la[f] / PGSIZE}
    }

    // Nothing is lost with a page that goes to the disk.
    lemma {:induction false} EvictedKeeps(rest: seq<nat>, q: seq<nat>, given: map<nat, nat>, saves: map<nat, seq<int>>)
      requires Valid() && Evicted(rest, q, given, saves) && forall u :: u in given ==> given[u] < memory.Length
      ensures forall u :: Touched(u) <==> u in given || u in saves
      ensures forall u :: u in given || u in saves ==>
        Touched(u) && Contents(u) == if u in given then memory[given[u]] else saves[u]
    {
    }

    lemma {:induction false} EvictedTook(rest: seq<nat>, q: seq<nat>, given: map<nat, nat>, saves: map<nat, seq<int>>)
      requires Evicted(rest, q, given, saves) && free == {}
      ensures Took(q[0], {}, q, given, vaddr[..], rest, resident)
    {
    }

    lemma {:induction false} InMemory()
      requires Valid()
      ensures forall u :: u in resident ==> resident[u] < memory.Length
    {
    }

    // alloc_page: a free frame, or else the one whose page goes to the disk.
    method AllocPage(sm: ClockManager) returns (r: Result<nat>)
      requires Managed(sm) && (free != {} || sm.queue != [])
      modifies this`free, this`resident, this`saved, ide, ptes, sm, sm.visited
      ensures r.Ok? <==> old(free) != {} || Fits(old(sm.queue[0]))
      ensures r.Ok? ==> Managed(sm) && Claimed(r.value, sm)
      ensures r.Ok? ==> Took(r.value, old(free), old(sm.queue), old(resident), vaddr[..], sm.queue, resident)
      ensures r.Ok? ==> forall u :: Touched(u) <==> old(Touched(u))
      ensures r.Ok? ==> forall u :: old(Touched(u)) ==> Touched(u) && Contents(u) == old(Contents(u))
    {
      hide Residents, Savings, ClockManager.Valid, ClockManager.Fifo, Queued, Fits, Evicted;
      ghost var q, given, saves := sm.queue, resident, saved;
      InMemory();
      while free == {}
        invariant Managed(sm) && (free != {} || sm.queue != [])
        invariant free == old(free) ==> sm.queue == q && resident == given && saved == saves
        invariant free != old(free) ==>
          old(free) == {} && q != [] && free == {q[0]} && Fits(q[0]) && Evicted(sm.queue, q, given, saves)
        decreases if free == {} then 1 else 0
      {
        var out := SwapOutFirst(sm);
        if out.Halt? {
          return Halt;
        }
      }
      var f := TakeFree(sm);
      if old(free) == {} {
        EvictedTook(sm.queue, q, given, saves);
        EvictedKeeps(sm.queue, q, given, saves);
      }
      return Ok(f);
    }

    method TakeFree(sm: ClockManager) returns (f: nat)
      requires Managed(sm) && free != {}
      modifies this`free
      ensures Managed(sm) && f in old(free) && free == old(free) - {f}
      ensures f < memory.Length && f !in resident.Values && f !in sm.queue
    {
      hide ClockManager.Valid, ClockManager.Fifo;
      f :| f in free;
      free := free - {f};
    }

    // swap_in: a frame with what was last swapped out from the page at la.
    method SwapIn(sm: ClockManager, la: nat) returns (r: Result<nat>)
      requires Managed(sm) && (free != {} || sm.queue != []) && la / PGSIZE < ptes.Length
      requires la / PGSIZE in saved && la / PGSIZE !in resident
      modifies this`free, this`resident, this`saved, ide, memory, ptes, sm, sm.visited
      ensures r.Ok? <==> old(free) != {} || Fits(old(sm.queue[0]))
      ensures r.Ok? ==> Managed(sm) && Claimed(r.value, sm) && memory[r.value] == old(saved[la / PGSIZE])
      ensures r.Ok? ==> Took(r.value, old(free), old(sm.queue), old(resident), vaddr[..], sm.queue, resident)
      ensures r.Ok? ==> forall u :: Touched(u) <==> old(Touched(u))
      ensures r.Ok? ==> forall u :: old(Touched(u)) ==> Touched(u) && Contents(u) == old(Contents(u))
    {
      hide ClockManager.Valid, ClockManager.Fifo, Fits;
      var v := la / PGSIZE;
      assert Touched(v) && Contents(v) == saved[v];
      r := AllocPage(sm);
      if r.Ok? {
        assert v !in resident && Contents(v) == saved[v];
        var read := SwapfsRead(ptes[v], r.value, v, saved[v]);
      }
    }

    // page_insert of a new page at la, which then can be swapped out.
    method MapPage(f: nat, la: nat, perm: nat)
      requires Valid() && f < memory.Length && f !in free && perm < FLAGS
      requires la / PGSIZE < ptes.Length && la / PGSIZE !in resident && f !in resident.Values
      modifies this`resident, vaddr, ptes
      ensures Valid() && resident == old(resident)[la / PGSIZE := f]
      ensures ptes[la / PGSIZE] == PteCreate(f + nbase, perm)
      ensures forall u :: 0 <= u < ptes.Length && u != la / PGSIZE ==> ptes[u] == old(ptes[u])
    {
      var v := la / PGSIZE;
      EntryDecodes(f + nbase, perm);
      ptes[v] := PteCreate(f + nbase, perm);
      vaddr[f] := la;
      resident := resident[v := f];
    }

    // page_insert, swap_map_swappable and pra_vaddr of the page now in frame f.
    method Install(sm: ClockManager, f: nat, la: nat, perm: nat)
      requires Managed(sm) && Claimed(f, sm) && la / PGSIZE < ptes.Length && la / PGSIZE !in resident && perm < FLAGS
      requires la / PGSIZE in saved ==> memory[f] == saved[la / PGSIZE]
      modifies this`resident, vaddr, ptes, sm`queue, sm`arrived, sm.visited
      ensures Managed(sm) && resident == old(resident)[la / PGSIZE := f] && sm.queue == old(sm.queue) + [f]
      ensures ptes[la / PGSIZE] == PteCreate(f + nbase, perm)
      ensures forall u :: old(Touched(u)) ==> Touched(u) && Contents(u) == old(Contents(u))
    {
      hide Savings, ClockManager.Valid, ClockManager.Fifo, Fits;
      MapPage(f, la, perm);
      sm.MapSwappable(f);
    }

    // The entry of a page that is not mapped says whether it is on the disk.
    lemma {:induction false} Unmapped(v: nat)
      requires Valid() && v < ptes.Length && v !in resident
      ensures ptes[v] == 0 <==> v !in saved
    {
      EntryDecodesToOffset(v);
    }

    // The page fault on a page that is not mapped: a new frame for a page never
    // touched before, else one with the page's last contents. No page loses what
    // it holds.
    method DoPgfault(sm: ClockManager, la: nat, perm: nat) returns (r: Result<nat>)
      requires Managed(sm) && (free != {} || sm.queue != [])
      requires la / PGSIZE < ptes.Length && la / PGSIZE !in resident && perm < FLAGS
      modifies this`free, this`resident, this`saved, ide, memory, vaddr, ptes, sm, sm.visited
      ensures r.Ok? <==> old(free) != {} || old(Fits(sm.queue[0]))
      ensures r.Ok? ==>
        && Managed(sm) && la / PGSIZE in resident && resident[la / PGSIZE] == r.value
        && ptes[la / PGSIZE] == PteCreate(r.value + nbase, perm)
      ensures r.Ok? ==>
        && sm.queue != [] && sm.queue[|sm.queue| - 1] == r.value
        && Took(r.value, old(free), old(sm.queue), old(resident), old(vaddr[..]),
                sm.queue[..|sm.queue| - 1], resident - {la / PGSIZE})
      ensures r.Ok? ==> forall u :: Touched(u) <==> old(Touched(u)) || u == la / PGSIZE
      ensures r.Ok? ==> forall u :: old(Touched(u)) ==> Touched(u) && Contents(u) == old(Contents(u))
    {
      hide Residents, Savings, ClockManager.Valid, ClockManager.Fifo, Queued, Fits;
      Unmapped(la / PGSIZE);
      if ptes[la / PGSIZE] == 0 {
        r := AllocPage(sm);
      } else {
        r := SwapIn(sm, la);
      }
      if r.Ok? {
        assert old(Touched(la / PGSIZE)) ==> Contents(la / PGSIZE) == saved[la / PGSIZE] == old(saved[la / PGSIZE]);
        Install(sm, r.value, la, perm);
        assert sm.queue[..|sm.queue| - 1] + [r.value] == sm.queue;
      }
    }

    // A process writes to a page it has mapped: no other page changes.
    method Store(v: nat, data: seq<int>, ghost sm: ClockManager)
      requires Managed(sm) && v in resident && |data| == PGSIZE
      modifies memory
      ensures Managed(sm) && forall u :: Touched(u) ==> Contents(u) == if u == v then data else old(Contents(u))
    {
      hide ClockManager.Valid, ClockManager.Fifo, OnDisk;
      var f := FrameOf(v);
      memory[f] := data;
    }

    // The frame a valid entry leads to.
    method FrameOf(v: nat) returns (f: nat)
      requires Valid() && v in resident
      ensures f == resident[v]
    {
      f := Ppn(PteAddr(ptes[v])) - nbase;
    }

    constructor (frames: nat, base: nat, npages: nat, avail: set<nat>)
      requires forall f :: f in avail ==> f < frames
      ensures Valid() && resident == map[] && saved == map[] && free == avail && nbase == base
      ensures ptes.Length == npages && memory.Length == frames
      ensures fresh(ide) && fresh(memory) && fresh(vaddr) && fresh(ptes)
    {
      nbase := base;
      ide := new int[DISK];
      memory := new seq<int>[frames](f => seq(PGSIZE, k => 0));
      vaddr := new nat[frames];
      ptes := new nat[npages](v => 0);
      free := avail;
      resident, saved := map[], map[];
    }
  }
}
