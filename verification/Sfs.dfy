// The image builder of lab8/tools/mksfs.c, in place: block numbers, inodes,
// index blocks and the free map.

module Sfs {
  import opened Arith
  import opened Bits
  import opened SfsBlocks
  import opened SfsImage
  import opened Wrappers

  const SFS_BLKSIZE: nat := 4096
  const SFS_BLKBITS: nat := 32768
  const SFS_MAX_NBLKS: nat := 524288
  const SFS_BLKN_ROOT: nat := 1
  const SFS_BLKN_FREEMAP: nat := 2

  // Blocks the free map takes.
  function MapBlocks(ninos: nat): nat {
    Quotient(ninos + SFS_BLKBITS - 1, SFS_BLKBITS)
  }

  class Builder {
    var ninos: nat
    var nextIno: nat
    var unused: nat                     // super.unused_blocks
    var files: seq<File>                // the cached inodes
    var blocks: map<nat, seq<nat>>      // the cached index blocks, by number
    ghost var data: seq<seq<nat>>       // the blocks appended to each file
    ghost var owner: map<nat, Role>

    ghost function State(): Image
      reads this
    {
      Image(files, blocks, data, owner)
    }

    // The numbers given out: the root's, and those from the end of the free map on.
    ghost predicate Given(b: nat)
      reads this
    {
      b == SFS_BLKN_ROOT || SFS_BLKN_FREEMAP + MapBlocks(ninos) <= b < nextIno
    }

    // Every number given out is owned, but for those still on their way.
    ghost predicate ValidBut(pending: set<nat>)
      reads this
    {
      && Good(State()) && pending !! owner.Keys
      && SFS_BLKN_FREEMAP + MapBlocks(ninos) <= nextIno <= ninos && unused == ninos - nextIno
      && forall b :: Given(b) <==> b in owner || b in pending
    }

    ghost predicate Valid()
      reads this
    {
      ValidBut({})
    }

    // sfs_alloc_ino
    method AllocIno(ghost pending: set<nat>) returns (r: Result<nat>)
      requires ValidBut(pending)
      modifies this`nextIno, this`unused
      ensures r == if old(nextIno) < ninos then Ok(old(nextIno)) else Halt
      ensures r.Ok? ==> r.value !in owner && r.value !in pending && r.value != 0 && nextIno == old(nextIno) + 1
      ensures r.Ok? ==> ValidBut(pending + {r.value})
    {
      if nextIno < ninos {
        unused := unused - 1;
        nextIno := nextIno + 1;
        return Ok(nextIno - 1);
      }
      return Halt;
    }

    // alloc_cache_inode with a new number.
    method AllocInode() returns (r: Result<nat>)
      requires Valid()
      modifies this
      ensures r.Ok? <==> old(nextIno) < old(ninos)
      ensures r.Ok? ==> Valid() && State() == WithFile(old(State()), old(nextIno)) && r.value == |old(files)|
    {
      hide Good;
      var n := AllocIno({});
      if n.Halt? {
        return Halt;
      }
      WithFileKeeps(State(), n.value);
      ghost var im := WithFile(State(), n.value);
      files := files + [File(n.value, 0, 0, 0, seq(NDIRECT, i => 0), 0, 0, 0, 0)];
      data, owner := im.data, im.owner;
      assert State() == im;
      return Ok(|files| - 1);
    }

    // update_cache of an index pointer and its cached block. The cached block is
    // always the right one, so the search for another is never made.
    method UpdateCache(cb: nat, ino: nat, ghost pending: set<nat>) returns (r: Result<nat>)
      requires ValidBut(pending) && (ino != 0 ==> cb == ino)
      modifies this`nextIno, this`unused, this`blocks
      ensures ino != 0 ==> r == Ok(ino) && blocks == old(blocks) && nextIno == old(nextIno) && unused == old(unused)
      ensures ino == 0 ==> r == if old(nextIno) < ninos then Ok(old(nextIno)) else Halt
      ensures ino == 0 && r.Ok? ==>
        && r.value !in owner && r.value !in pending && r.value != 0
        && nextIno == old(nextIno) + 1 <= ninos && unused == old(unused) - 1
        && blocks == old(blocks)[r.value := Zeros()]
    {
      if ino == 0 {
        r := AllocIno(pending);
        if r.Ok? {
          blocks := blocks[r.value := Zeros()];
        }
      } else if cb == 0 || cb != ino {
        assert false;
      } else {
        r := Ok(ino);
      }
    }

    // The single index block of file f, made if there is none.
    method NeedSingle(f: nat, ghost ino: nat) returns (ok: bool)
      requires ValidBut({ino}) && f < |files| == |data| && NDIRECT <= |data[f]| < L1_NBLKS
      modifies this
      ensures ninos == old(ninos) && data == old(data) && |files| == |old(files)| && files[f].size == old(files[f].size)
      ensures ok <==> old(files[f].indirect) != 0 || old(nextIno) < ninos
      ensures ok ==> ValidBut({ino}) && files[f].l1 == files[f].indirect != 0
      ensures ok ==> var n := if old(files[f].indirect) == 0 then old(nextIno) else old(files[f].indirect);
        && files == old(files)[f := old(files[f]).(l1 := n, indirect := n)]
        && nextIno == old(nextIno) + if old(files[f].indirect) == 0 then 1 else 0
    {
      hide Good;
      CachedSingle(State(), f);
      ghost var made := files[f].indirect == 0;
      var r := UpdateCache(files[f].l1, files[f].indirect, {ino});
      if r.Halt? {
        return false;
      }
      files := files[f := files[f].(l1 := r.value)];
      files := files[f := files[f].(indirect := r.value)];
      if made {
        WithSingleKeeps(old(State()), f, r.value);
        owner := owner[r.value := Single(f)];
        assert State() == WithSingle(old(State()), f, r.value);
      } else {
        assert State() == old(State());
      }
      return true;
    }

    // The doubly indirect index block, made if there is none.
    method NeedDouble(f: nat, ghost ino: nat) returns (ok: bool)
      requires ValidBut({ino}) && f < |files| == |data| && L1_NBLKS <= |data[f]|
      modifies this
      ensures ninos == old(ninos) && data == old(data) && |files| == |old(files)| && files[f].size == old(files[f].size)
      ensures ok <==> old(files[f].dbIndirect) != 0 || old(nextIno) < ninos
      ensures ok ==> var n := if old(files[f].dbIndirect) == 0 then old(nextIno) else old(files[f].dbIndirect);
        files == old(files)[f := old(files[f]).(l2 := n, dbIndirect := n)]
      ensures ok ==> ValidBut({ino}) && files[f].l2 == files[f].dbIndirect != 0
                     && nextIno == old(nextIno) + if old(files[f].dbIndirect) == 0 then 1 else 0
      ensures ok ==> forall q ::
        Word(blocks, files[f].dbIndirect, q)
        == if old(files[f].dbIndirect) == 0 then 0 else Word(old(blocks), old(files[f].dbIndirect), q)
    {
      hide Good;
      CachedDouble(State(), f);
      ghost var made := files[f].dbIndirect == 0;
      var r := UpdateCache(files[f].l2, files[f].dbIndirect, {ino});
      if r.Halt? {
        return false;
      }
      files := files[f := files[f].(l2 := r.value)];
      files := files[f := files[f].(dbIndirect := r.value)];
      if made {
        WithDoubleKeeps(old(State()), f, r.value);
        owner := owner[r.value := Double(f)];
        assert State() == WithDouble(old(State()), f, r.value);
      } else {
        assert State() == old(State());
      }
      return true;
    }

    // The table that word q of the doubly indirect block points to, made if
    // there is none.
    method NeedTable(f: nat, q: nat, ghost ino: nat) returns (ok: bool)
      requires ValidBut({ino}) && f < |files| == |data| && L1_NBLKS <= |data[f]|
      requires files[f].l2 == files[f].dbIndirect != 0
      requires q == Quotient(|data[f]| - L1_NBLKS, NENTRY) < NENTRY
      modifies this
      ensures ninos == old(ninos) && data == old(data) && |files| == |old(files)| && files[f].size == old(files[f].size)
      ensures ok <==> Word(old(blocks), old(files[f].dbIndirect), q) != 0 || old(nextIno) < ninos
      ensures ok ==> ValidBut({ino}) && files[f].dbIndirect == old(files[f].dbIndirect)
                     && files[f].l1 == Word(blocks, files[f].dbIndirect, q) != 0
      ensures ok ==> var n := Word(old(blocks), old(files[f].dbIndirect), q);
        && files == old(files)[f := old(files[f]).(l1 := if n == 0 then old(nextIno) else n)]
        && nextIno == old(nextIno) + if n == 0 then 1 else 0
    {
      hide Good;
      CachedTable(State(), f, q);
      var db := files[f].l2;
      ghost var made := blocks[db][q] == 0;
      var r := UpdateCache(files[f].l1, blocks[db][q], {ino});
      if r.Halt? {
        return false;
      }
      blocks := SetWord(blocks, db, q, r.value);
      files := files[f := files[f].(l1 := r.value)];
      if made {
        WithTableKeeps(old(State()), f, q, r.value);
        owner := owner[r.value := Table(f, q)];
        assert State() == WithTableBlock(old(State()), f, q, r.value);
      } else {
        assert blocks[db] == old(blocks[db]) && blocks == old(blocks);
        assert State() == old(State());
      }
      return true;
    }

    // append_block of block ino, a number on its way, to file f. It ends the
    // program when the file is full or no number is left for an index block.
    method AppendBlock(f: nat, size: nat, ino: nat) returns (ok: bool)
      requires ValidBut({ino}) && ino != 0 && f < |files| && size <= SFS_BLKSIZE
      modifies this
      ensures ninos == old(ninos)
      ensures ok <==> old(files[f].nblks) < 32768
                      && old(nextIno) + Needed(old(files[f]), old(blocks)) <= ninos
      ensures ok ==> Valid() && |files| == |old(files)| == |old(data)| && data == old(data)[f := old(data[f]) + [ino]]
                     && files[f].size == old(files[f].size) + size
      ensures ok ==> nextIno == old(nextIno) + Needed(old(files[f]), old(blocks))
      ensures ok ==> files == old(files)[f := files[f]] && files[f].ino == old(files[f].ino)
      ensures ok ==> MadeInOrder(old(files[f]), files[f], old(blocks), blocks, old(nextIno))
    {
      hide Good, Needed;
      CountOf(State(), f);
      NeededIs(files[f], blocks);
      var nblks := files[f].nblks;
      if nblks >= LN_NBLKS {
        return false;
      }
      if nblks < NDIRECT {
        PutDirectHere(f, size, ino);
        return true;
      } else if nblks < L1_NBLKS {
        ok := NeedSingle(f, ino);
        if ok {
          PutSingleHere(f, size, ino);
        }
      } else {
        ok := AppendDeep(f, size, ino);
      }
    }

    // The branch through the doubly indirect block.
    method AppendDeep(f: nat, size: nat, ino: nat) returns (ok: bool)
      requires ValidBut({ino}) && ino != 0 && f < |files| == |data| && L1_NBLKS <= files[f].nblks < LN_NBLKS
      requires files[f].nblks == |data[f]|
      modifies this
      ensures ninos == old(ninos)
      ensures ok <==> old(nextIno) + Needed(old(files[f]), old(blocks)) <= ninos
      ensures ok ==> Valid() && |files| == |old(files)| && data == old(data)[f := old(data[f]) + [ino]]
                     && files[f].size == old(files[f].size) + size
      ensures ok ==> nextIno == old(nextIno) + Needed(old(files[f]), old(blocks))
      ensures ok ==> files == old(files)[f := files[f]] && files[f].ino == old(files[f].ino)
      ensures ok ==> MadeInOrder(old(files[f]), files[f], old(blocks), blocks, old(nextIno))
    {
      hide Good, Needed;
      NeededIs(files[f], blocks);
      var nblks := files[f].nblks;
      ok := NeedDouble(f, ino);
      var q, r := Position(nblks);
      if ok {
        ok := NeedTable(f, q, ino);
      }
      if ok {
        PutTableHere(f, q, r, size, ino);
      }
    }

    // The index blocks that were missing take the next numbers, the doubly
    // indirect block before the table under it.
    ghost predicate MadeInOrder(was: File, now: File, words: map<nat, seq<nat>>, words': map<nat, seq<nat>>,
                                next: nat) {
      if was.nblks < 12 then now.indirect == was.indirect && now.dbIndirect == was.dbIndirect
      else if was.nblks < 1036 then
        now.indirect == (if was.indirect == 0 then next else was.indirect) && now.dbIndirect == was.dbIndirect
      else
        var q := (was.nblks - 1036) / 1024;
        && now.indirect == was.indirect
        && now.dbIndirect == (if was.dbIndirect == 0 then next else was.dbIndirect)
        && Word(words', now.dbIndirect, q)
           == if was.dbIndirect == 0 then next + 1
              else if Word(words, was.dbIndirect, q) == 0 then next else Word(words, was.dbIndirect, q)
    }

    // Table and word for the block at nblks.
    method Position(nblks: nat) returns (q: nat, r: nat)
      requires L1_NBLKS <= nblks < LN_NBLKS
      ensures q == (nblks - L1_NBLKS) / NENTRY
      ensures q == Quotient(nblks - L1_NBLKS, NENTRY) < NENTRY && r < NENTRY && nblks - L1_NBLKS == Times(q, NENTRY) + r
    {
      q, r := (nblks - L1_NBLKS) / NENTRY, (nblks - L1_NBLKS) % NENTRY;
      ghost var q', r' := Split(nblks - L1_NBLKS);
      FewTables(nblks - L1_NBLKS, q', r');
    }

    // The three places the number can go.
    method PutDirectHere(f: nat, size: nat, ino: nat)
      requires ValidBut({ino}) && ino != 0 && f < |files| == |data| && |data[f]| < NDIRECT
      modifies this`files, this`data, this`owner
      ensures Valid() && data == old(data)[f := old(data[f]) + [ino]] && |files| == |old(files)|
      ensures files == old(files)[f := Longer(old(files[f]).(direct := files[f].direct), size)]
    {
      hide Good;
      CountOf(State(), f);
      PutDirectKeeps(State(), f, ino, size);
      ghost var im := Appended(State(), f, ino, DirectFile(files[f], ino, size), blocks);
      var direct: seq<nat> := files[f].direct[files[f].nblks := ino];
      files := files[f := files[f].(direct := direct)];
      files := files[f := Longer(files[f], size)];
      data, owner := im.data, im.owner;
      assert State() == im;
    }

    method PutSingleHere(f: nat, size: nat, ino: nat)
      requires ValidBut({ino}) && ino != 0 && f < |files| == |data| && NDIRECT <= |data[f]| < L1_NBLKS
      requires files[f].indirect != 0
      modifies this`files, this`blocks, this`data, this`owner
      ensures Valid() && data == old(data)[f := old(data[f]) + [ino]] && |files| == |old(files)|
      ensures files == old(files)[f := Longer(old(files[f]), size)]
    {
      hide Good;
      CountOf(State(), f);
      PutSingleKeeps(State(), f, ino, size);
      var words := SetWord(blocks, files[f].l1, files[f].nblks - NDIRECT, ino);
      ghost var im := Appended(State(), f, ino, Longer(files[f], size), words);
      blocks := words;
      files := files[f := Longer(files[f], size)];
      data, owner := im.data, im.owner;
      assert State() == im;
    }

    method PutTableHere(f: nat, q: nat, r: nat, size: nat, ino: nat)
      requires ValidBut({ino}) && ino != 0 && f < |files| == |data| && L1_NBLKS <= |data[f]| < LN_NBLKS
      requires |data[f]| - L1_NBLKS == Times(q, NENTRY) + r && r < NENTRY
      requires q == Quotient(|data[f]| - L1_NBLKS, NENTRY) < NENTRY
      requires files[f].dbIndirect != 0 && files[f].l1 == Word(blocks, files[f].dbIndirect, q) != 0
      modifies this`files, this`blocks, this`data, this`owner
      ensures Valid() && data == old(data)[f := old(data[f]) + [ino]] && |files| == |old(files)|
      ensures files == old(files)[f := Longer(old(files[f]), size)]
      ensures Word(blocks, files[f].dbIndirect, q) == old(Word(blocks, files[f].dbIndirect, q))
    {
      hide Good;
      CountOf(State(), f);
      PutTableKeeps(State(), f, q, r, ino, size);
      var words := SetWord(blocks, files[f].l1, r, ino);
      ghost var im := Appended(State(), f, ino, Longer(files[f], size), words);
      blocks := words;
      files := files[f := Longer(files[f], size)];
      data, owner := im.data, im.owner;
      assert State() == im;
    }

    lemma {:induction false} NeededIs(file: File, words: map<nat, seq<nat>>)
      ensures file.nblks < NDIRECT ==> Needed(file, words) == 0
      ensures NDIRECT <= file.nblks < L1_NBLKS ==> Needed(file, words) == if file.indirect == 0 then 1 else 0
      ensures L1_NBLKS <= file.nblks && file.dbIndirect == 0 ==> Needed(file, words) == 2
      ensures L1_NBLKS <= file.nblks && file.dbIndirect != 0 ==>
        var q := Quotient(file.nblks - L1_NBLKS, NENTRY);
        Needed(file, words) == if Word(words, file.dbIndirect, q) == 0 then 1 else 0
    {
    }

    // The body of open_file: a new number, appended to the file.
    method AddBlock(f: nat, size: nat) returns (ok: bool)
      requires Valid() && f < |files| && size <= SFS_BLKSIZE
      modifies this
      ensures ok <==> old(files[f].nblks) < 32768
                      && old(nextIno) + 1 + Needed(old(files[f]), old(blocks)) <= old(ninos)
      ensures ok ==> Valid() && ninos == old(ninos) && |data| == |old(data)|
                     && data == old(data)[f := old(data[f]) + [old(nextIno)]]
      ensures ok ==> |files| == |old(files)| && files == old(files)[f := files[f]]
                     && files[f].size == old(files[f].size) + size
                     && MadeInOrder(old(files[f]), files[f], old(blocks), blocks, old(nextIno) + 1)
    {
      hide Good, Needed, MadeInOrder;
      CountOf(State(), f);
      var ino := AllocIno({});
      if ino.Halt? {
        return false;
      }
      assert {} + {ino.value} == {ino.value};
      ok := AppendBlock(f, size, ino.value);
    }

    // The i-th block appended to a file is found there through its index blocks.
    lemma {:induction false} Found(f: nat, i: nat)
      requires Valid() && f < |files|
      ensures |data| == |files| && files[f].nblks == |data[f]|
      ensures i < |data[f]| ==> Resolve(files[f], blocks, i) == data[f][i]
    {
      if i < |data[f]| {
        ResolveAppended(files[f], data[f], blocks, i);
      }
    }

    // Every number given out is one inode, one data block or one index block,
    // and nothing else uses it.
    lemma {:induction false} OneOwner(b: nat)
      requires Valid() && Given(b)
      ensures b in owner && forall role :: Has(State(), role, b) <==> role == owner[b]
    {
    }

    // ---------- The free map ----------

    // close_sfs: the blocks of the free map, from SFS_BLKN_FREEMAP on.
    method FreeMap() returns (maps: seq<seq<nat>>)
      requires Valid()
      ensures |maps| == (ninos + 32767) / 32768 && forall m :: 0 <= m < |maps| ==> |maps[m]| == 1024
      ensures SFS_BLKN_FREEMAP + |maps| <= nextIno
      ensures forall b: nat :: InMap(maps, b) <==> nextIno <= b < ninos
      ensures CountMarked(maps, ninos) == unused
    {
      hide Good, Marked;
      maps := [];
      var i := 0;
      var ino := SFS_BLKN_FREEMAP;
      while i < ninos
        invariant i == Times(|maps|, SFS_BLKBITS) && ino == SFS_BLKN_FREEMAP + |maps|
        invariant i < ninos + SFS_BLKBITS && forall m :: 0 <= m < |maps| ==> |maps[m]| == NENTRY
        invariant forall m, j :: 0 <= m < |maps| && 0 <= j < SFS_BLKBITS ==>
          (Marked(maps[m], j) <==> nextIno <= Times(m, SFS_BLKBITS) + j < ninos)
        decreases ninos + SFS_BLKBITS - i
      {
        var start, end := 0, 0;
        if i + SFS_BLKBITS > nextIno {
          end := SFS_BLKBITS;
          if i < nextIno {
            start := nextIno - i;
          }
          if i + SFS_BLKBITS > ninos {
            end := ninos - i;
          }
        }
        var buffer := MarkRange(start, end);
        maps := maps + [buffer];
        ino, i := ino + 1, i + SFS_BLKBITS;
      }
      MapBlocksIs(ninos, |maps|);
      MapIs(maps, nextIno, ninos);
      CountRange(maps, nextIno, ninos, ninos);
    }

    // create_sfs, once the image is known to be large enough.
    constructor (count: nat)
      requires SFS_BLKN_FREEMAP + MapBlocks(count) < count
      ensures Valid() && ninos == count && nextIno == SFS_BLKN_FREEMAP + MapBlocks(count)
      ensures |files| == 1 && files[0].ino == SFS_BLKN_ROOT && data == [[]]
    {
      ninos := count;
      nextIno := SFS_BLKN_FREEMAP + MapBlocks(count);
      unused := count - (SFS_BLKN_FREEMAP + MapBlocks(count));
      files := [File(SFS_BLKN_ROOT, 0, 0, 0, seq(NDIRECT, i => 0), 0, 0, 0, 0)];
      blocks, data, owner := map[], [[]], map[SFS_BLKN_ROOT := Inode(0)];
      new;
      ghost var none := Image([], map[], [], map[]);
      WithFileKeeps(none, SFS_BLKN_ROOT);
      assert State() == WithFile(none, SFS_BLKN_ROOT);
    }
  }

  // create_sfs from the size of the image file: an image of four blocks or more
  // is made.
  method CreateSfs(size: nat) returns (r: Result<Builder>)
    ensures r.Ok? <==> Blocks(size) >= 4
    ensures size < 16384 ==> r.Halt?
    ensures 16384 <= size < 0x8000_0000 ==> r.Ok? && r.value.ninos * 4096 <= size < (r.value.ninos + 1) * 4096
    ensures 0x8000_0000 <= size < 0x1000_0000_0000 ==> r.Ok? && r.value.ninos == 524288
    ensures r.Ok? ==> r.value.unused == r.value.ninos - r.value.nextIno
    ensures r.Ok? ==> fresh(r.value) && r.value.Valid() && r.value.ninos == Blocks(size)
  {
    EnoughBlocks(Blocks(size));
    WholeBlocks(size);
    var ninos := Blocks(size);
    if SFS_BLKN_FREEMAP + MapBlocks(ninos) >= ninos {
      return Halt;
    }
    var sfs := new Builder(ninos);
    return Ok(sfs);
  }

  // Blocks used of an image file; their number is kept in 32 bits before it is
  // compared with the largest.
  function Blocks(size: nat): nat {
    Capped(size / SFS_BLKSIZE % 0x1_0000_0000)
  }

  function Capped(ninos: nat): nat {
    if ninos > SFS_MAX_NBLKS then SFS_MAX_NBLKS else ninos
  }

  lemma {:induction false} EnoughBlocks(ninos: nat)
    requires ninos <= SFS_MAX_NBLKS
    ensures SFS_BLKN_FREEMAP + MapBlocks(ninos) < ninos <==> ninos >= 4
  {
    QuotientIsDivision(ninos + SFS_BLKBITS - 1, SFS_BLKBITS);
  }

  // All of the file is used, up to the largest number of blocks, exactly when
  // it is below 2^44 bytes or what 32 bits keep of the count is large anyway.
  lemma {:induction false} BlocksExact(size: nat)
    ensures Blocks(size) == Capped(size / SFS_BLKSIZE)
       <==> size < 0x1000_0000_0000 || size / SFS_BLKSIZE % 0x1_0000_0000 >= SFS_MAX_NBLKS
  {
    var q := size / SFS_BLKSIZE;
    assert q < 0x1_0000_0000 <==> size < 0x1000_0000_0000;
    if q < 0x1_0000_0000 {
      assert q % 0x1_0000_0000 == q;
    }
  }

  // Below 2^44 bytes the whole blocks of the file, up to 2^31 bytes' worth.
  lemma {:induction false} WholeBlocks(size: nat)
    ensures size < 0x8000_0000 ==> Blocks(size) * 4096 <= size < (Blocks(size) + 1) * 4096
    ensures 0x8000_0000 <= size < 0x1000_0000_0000 ==> Blocks(size) == 524288
    ensures size < 0x1000_0000_0000 ==> (Blocks(size) < 4 <==> size < 16384)
  {
  }

  // A file of 2^44 bytes is taken for one of no blocks, and no image is made.
  lemma {:induction false} BlocksFailAt44()
    ensures Blocks(0x1000_0000_0000) == 0 < Capped(0x1000_0000_0000 / SFS_BLKSIZE)
  {
    assert 0x1000_0000_0000 / SFS_BLKSIZE == 0x1_0000_0000;
  }

  // The bit for block b in the free map.
  predicate InMap(maps: seq<seq<nat>>, b: nat) {
    b / 32768 < |maps| && Marked(maps[b / 32768], b % 32768)
  }

  lemma {:induction false} MapIs(maps: seq<seq<nat>>, lo: nat, hi: nat)
    requires hi <= Times(|maps|, SFS_BLKBITS)
    requires forall m, j :: 0 <= m < |maps| && 0 <= j < SFS_BLKBITS ==>
      (Marked(maps[m], j) <==> lo <= Times(m, SFS_BLKBITS) + j < hi)
    ensures forall b: nat :: InMap(maps, b) <==> lo <= b < hi
  {
    forall b: nat ensures InMap(maps, b) <==> lo <= b < hi {
      var m, j := b / SFS_BLKBITS, b % SFS_BLKBITS;
      TimesIsProduct(m, SFS_BLKBITS);
      TimesIsProduct(|maps|, SFS_BLKBITS);
      if m < |maps| {
        assert Marked(maps[m], j) <==> lo <= Times(m, SFS_BLKBITS) + j < hi;
      }
    }
  }

  // How many of the first n blocks are marked.
  function CountMarked(maps: seq<seq<nat>>, n: nat): nat
    decreases n, maps
  {
    if n == 0 then 0 else CountMarked(maps, n - 1) + if InMap(maps, n - 1) then 1 else 0
  }

  lemma {:induction false} CountRange(maps: seq<seq<nat>>, lo: nat, hi: nat, n: nat)
    requires (forall b: nat :: InMap(maps, b) <==> lo <= b < hi) && n <= hi
    ensures CountMarked(maps, n) == if n <= lo then 0 else n - lo
    decreases n
  {
    if n > 0 {
      CountRange(maps, lo, hi, n - 1);
    }
  }

  // Bit j of a block of 32-bit words.
  predicate Marked(words: seq<nat>, j: nat) {
    j / 32 < |words| && Bit(words[j / 32], j % 32)
  }

  // Set bit j.
  function Mark(words: seq<nat>, j: nat): (r: seq<nat>)
    requires |words| == NENTRY && j < SFS_BLKBITS
    ensures |r| == NENTRY
  {
    words[j / 32 := Or(words[j / 32], Exp2(j % 32))]
  }

  // A zeroed block with the bits from start to end set.
  method MarkRange(start: nat, end: nat) returns (words: seq<nat>)
    requires end <= SFS_BLKBITS
    ensures |words| == NENTRY
    ensures forall j :: 0 <= j < SFS_BLKBITS ==> (Marked(words, j) <==> start <= j < end)
  {
    words := Zeros();
    NoneMarked();
    var j := start;
    while j < end
      invariant start <= j && (j <= end || j == start) && |words| == NENTRY
      invariant forall k :: 0 <= k < SFS_BLKBITS ==> (Marked(words, k) <==> start <= k < j)
    {
      MarkOne(words, j);
      words := Mark(words, j);
      j := j + 1;
    }
  }

  lemma {:induction false} NoneMarked()
    ensures forall k :: 0 <= k < SFS_BLKBITS ==> !Marked(Zeros(), k)
  {
    forall k: nat ensures !Bit(0, k) {
      ZeroBit(k);
    }
  }

  lemma {:induction false} MarkOne(words: seq<nat>, j: nat)
    requires |words| == NENTRY && j < SFS_BLKBITS
    ensures forall k :: 0 <= k < SFS_BLKBITS ==> (Marked(Mark(words, j), k) <==> Marked(words, k) || k == j)
  {
    var words' := Mark(words, j);
    forall k | 0 <= k < SFS_BLKBITS ensures Marked(words', k) <==> Marked(words, k) || k == j {
      OrBit(words[j / 32], Exp2(j % 32), k % 32);
      PowerBit(j % 32, k % 32);
    }
  }

  lemma {:induction false} MapBlocksIs(ninos: nat, n: nat)
    requires ninos <= Times(n, SFS_BLKBITS) < ninos + SFS_BLKBITS
    ensures MapBlocks(ninos) == n == (ninos + 32767) / 32768
  {
    QuotientIsDivision(ninos + SFS_BLKBITS - 1, SFS_BLKBITS);
    TimesIsProduct(n, SFS_BLKBITS);
  }
}
