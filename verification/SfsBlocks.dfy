// The block map of a file in lab8/tools/mksfs.c: direct, indirect and doubly
// indirect entries, and who owns each block number.

module SfsBlocks {
  import opened Arith

  const NDIRECT: nat := 12
  const NENTRY: nat := 1024
  const L1_NBLKS: nat := 1036      // NENTRY + NDIRECT
  const LN_NBLKS: nat := 32768     // 128M of 4K blocks

  // struct cache_inode. The cached index blocks l1 and l2 are named by their
  // block numbers; 0 is no block.
  datatype File = File(ino: nat, nblks: nat, size: nat, nblocks: nat, direct: seq<nat>,
                       indirect: nat, dbIndirect: nat, l1: nat, l2: nat)

  // What an allocated block is for: an inode, the i-th data block of a file, or
  // one of its index blocks.
  datatype Role = Inode(f: nat) | Data(f: nat, i: nat) | Single(f: nat) | Double(f: nat) | Table(f: nat, q: nat)

  // The image under construction: cached inodes, the words of the cached index
  // blocks, the blocks appended to each file, and the role of each block.
  datatype Image = Image(files: seq<File>, blocks: map<nat, seq<nat>>, data: seq<seq<nat>>, owner: map<nat, Role>)

  function At(data: seq<nat>, i: nat): nat {
    if i < |data| then data[i] else 0
  }

  // First block of the q-th table.
  function Lo(q: nat): nat {
    L1_NBLKS + Times(q, NENTRY)
  }

  function Zeros(): (z: seq<nat>)
    ensures |z| == NENTRY && forall j :: 0 <= j < NENTRY ==> z[j] == 0
  {
    seq(NENTRY, j => 0)
  }

  // The words of an index block list the blocks of the file from lo on.
  ghost predicate Lists(words: seq<nat>, data: seq<nat>, lo: nat) {
    |words| == NENTRY && forall j :: 0 <= j < NENTRY ==> words[j] == At(data, lo + j)
  }

  ghost predicate DirectOk(file: File, data: seq<nat>) {
    && file.nblks == file.nblocks == |data| <= LN_NBLKS
    && |file.direct| == NDIRECT && forall i :: 0 <= i < NDIRECT ==> file.direct[i] == At(data, i)
  }

  ghost predicate SingleOk(file: File, data: seq<nat>, blocks: map<nat, seq<nat>>) {
    if file.indirect == 0 then |data| <= NDIRECT
    else |data| >= NDIRECT && file.indirect in blocks && Lists(blocks[file.indirect], data, NDIRECT)
  }

  ghost predicate TableOk(table: nat, q: nat, data: seq<nat>, blocks: map<nat, seq<nat>>) {
    if table == 0 then |data| <= Lo(q)
    else |data| >= Lo(q) && table in blocks && Lists(blocks[table], data, Lo(q))
  }

  ghost predicate DoubleOk(file: File, data: seq<nat>, blocks: map<nat, seq<nat>>) {
    if file.dbIndirect == 0 then |data| <= L1_NBLKS
    else
      && |data| >= L1_NBLKS && file.dbIndirect in blocks && |blocks[file.dbIndirect]| == NENTRY
      && forall q :: 0 <= q < NENTRY ==> TableOk(blocks[file.dbIndirect][q], q, data, blocks)
  }

  // The cached pointers are at the index blocks the next block goes to, if any.
  ghost predicate CacheOk(file: File, data: seq<nat>, blocks: map<nat, seq<nat>>) {
    && (NDIRECT <= |data| < L1_NBLKS && file.indirect != 0 ==> file.l1 == file.indirect)
    && (file.dbIndirect != 0 ==> file.l2 == file.dbIndirect)
    && (file.dbIndirect != 0 && file.dbIndirect in blocks && |data| >= L1_NBLKS ==>
          var q := Quotient(|data| - L1_NBLKS, NENTRY);
          q < |blocks[file.dbIndirect]| && blocks[file.dbIndirect][q] != 0 ==> file.l1 == blocks[file.dbIndirect][q])
  }

  ghost predicate FileOk(file: File, data: seq<nat>, blocks: map<nat, seq<nat>>) {
    && DirectOk(file, data) && SingleOk(file, data, blocks)
    && DoubleOk(file, data, blocks) && CacheOk(file, data, blocks)
  }

  // ---------- Looking a block up ----------

  // The i-th block of a file, read through the index blocks.
  ghost function Resolve(file: File, blocks: map<nat, seq<nat>>, i: nat): nat {
    if i < 12 then (if i < |file.direct| then file.direct[i] else 0)
    else if i < 1036 then Word(blocks, file.indirect, i - 12)
    else Word(blocks, Word(blocks, file.dbIndirect, (i - 1036) / 1024), (i - 1036) % 1024)
  }

  function Word(blocks: map<nat, seq<nat>>, b: nat, j: nat): nat {
    if b in blocks && j < |blocks[b]| then blocks[b][j] else 0
  }

  // Store one word of an index block.
  function SetWord(blocks: map<nat, seq<nat>>, b: nat, j: nat, w: nat): map<nat, seq<nat>>
    requires b in blocks && j < |blocks[b]|
  {
    var words: seq<nat> := blocks[b][j := w];
    blocks[b := words]
  }

  lemma {:induction false} Split(n: nat) returns (q: nat, r: nat)
    ensures q == n / NENTRY == Quotient(n, NENTRY) && r == n % NENTRY && r < NENTRY && n == Times(q, NENTRY) + r
  {
    q, r := n / NENTRY, n % NENTRY;
    QuotientIsDivision(n, NENTRY);
    TimesIsProduct(q, NENTRY);
  }

  lemma {:induction false} FewTables(n: nat, q: nat, r: nat)
    requires n < LN_NBLKS && n == Times(q, NENTRY) + r
    ensures q < NENTRY
  {
    TimesIsProduct(q, NENTRY);
  }

  // The i-th block appended is the i-th block found.
  lemma {:induction false} ResolveAppended(file: File, data: seq<nat>, blocks: map<nat, seq<nat>>, i: nat)
    requires FileOk(file, data, blocks) && i < |data|
    ensures Resolve(file, blocks, i) == data[i]
  {
    if i < NDIRECT {
    } else if i < L1_NBLKS {
      assert blocks[file.indirect][i - NDIRECT] == At(data, NDIRECT + (i - NDIRECT));
    } else {
      var q, r := Split(i - L1_NBLKS);
      FewTables(i - L1_NBLKS, q, r);
      var table := blocks[file.dbIndirect][q];
      assert TableOk(table, q, data, blocks);
      assert blocks[table][r] == At(data, Lo(q) + r);
    }
  }

  // ---------- One file: new index blocks ----------

  lemma {:induction false} LoGrows(q: nat, p: nat)
    requires q < p
    ensures Lo(q) + NENTRY <= Lo(p)
  {
    TimesBelow(q, p, NENTRY);
  }

  lemma {:induction false} SingleNew(file: File, data: seq<nat>, blocks: map<nat, seq<nat>>, n: nat)
    requires FileOk(file, data, blocks) && file.indirect == 0 && NDIRECT <= |data| < L1_NBLKS
    requires n !in blocks && n != 0
    ensures FileOk(file.(indirect := n, l1 := n), data, blocks[n := Zeros()])
  {
  }

  lemma {:induction false} DoubleNew(file: File, data: seq<nat>, blocks: map<nat, seq<nat>>, n: nat)
    requires FileOk(file, data, blocks) && file.dbIndirect == 0 && L1_NBLKS <= |data|
    requires n !in blocks && n != 0
    ensures FileOk(file.(dbIndirect := n, l2 := n), data, blocks[n := Zeros()])
  {
  }

  lemma {:induction false} TableNew(file: File, data: seq<nat>, blocks: map<nat, seq<nat>>, q: nat, n: nat)
    requires FileOk(file, data, blocks) && file.dbIndirect in blocks && file.dbIndirect != 0
    requires L1_NBLKS <= |data| && q == Quotient(|data| - L1_NBLKS, NENTRY) < NENTRY
    requires |blocks[file.dbIndirect]| == NENTRY && blocks[file.dbIndirect][q] == 0
    requires n !in blocks && n != 0 && file.indirect != file.dbIndirect
    requires forall p :: 0 <= p < NENTRY ==> blocks[file.dbIndirect][p] != file.dbIndirect
    ensures FileOk(file.(l1 := n), data, WithTable(blocks, file.dbIndirect, q, n))
  {
    var blocks' := WithTable(blocks, file.dbIndirect, q, n);
    var q', r := Split(|data| - L1_NBLKS);
    forall p | 0 <= p < NENTRY ensures TableOk(blocks'[file.dbIndirect][p], p, data, blocks') {
      assert TableOk(blocks[file.dbIndirect][p], p, data, blocks);
    }
  }

  function WithTable(blocks: map<nat, seq<nat>>, db: nat, q: nat, n: nat): map<nat, seq<nat>>
    requires db in blocks && q < |blocks[db]|
  {
    SetWord(blocks, db, q, n)[n := Zeros()]
  }

  // ---------- One file: the next block ----------

  function Longer(file: File, size: nat): File {
    file.(nblks := file.nblks + 1, nblocks := file.nblocks + 1, size := file.size + size)
  }

  lemma {:induction false} PutDirect(file: File, data: seq<nat>, blocks: map<nat, seq<nat>>, ino: nat, size: nat)
    requires FileOk(file, data, blocks) && |data| < NDIRECT
    ensures FileOk(Longer(file, size).(direct := file.direct[|data| := ino]), data + [ino], blocks)
  {
    var file' := Longer(file, size).(direct := file.direct[|data| := ino]);
    var data' := data + [ino];
    assert SingleOk(file', data', blocks) && DoubleOk(file', data', blocks);
  }

  lemma {:induction false} PutSingle(file: File, data: seq<nat>, blocks: map<nat, seq<nat>>, ino: nat, size: nat)
    requires FileOk(file, data, blocks) && NDIRECT <= |data| < L1_NBLKS && file.indirect != 0
    ensures file.l1 in blocks && |blocks[file.l1]| == NENTRY
    ensures FileOk(Longer(file, size), data + [ino], SetWord(blocks, file.l1, |data| - NDIRECT, ino))
  {
    var j := |data| - NDIRECT;
    var blocks' := SetWord(blocks, file.l1, j, ino);
    var data' := data + [ino];
    assert DirectOk(Longer(file, size), data');
    assert Lists(blocks'[file.l1], data', NDIRECT);
  }

  lemma {:induction false} PutTable(file: File, data: seq<nat>, blocks: map<nat, seq<nat>>, ino: nat, size: nat,
                                    q: nat, j: nat)
    requires FileOk(file, data, blocks) && L1_NBLKS <= |data| < LN_NBLKS
    requires file.dbIndirect != 0 && |data| - L1_NBLKS == Times(q, NENTRY) + j && j < NENTRY
    requires q == Quotient(|data| - L1_NBLKS, NENTRY) < NENTRY
    requires var db := blocks[file.dbIndirect];
      && file.l1 == db[q] != 0 && file.l1 != file.dbIndirect && file.l1 != file.indirect
      && (forall p :: 0 <= p < NENTRY && p != q ==> db[p] != file.l1)
    ensures file.l1 in blocks && |blocks[file.l1]| == NENTRY
    ensures FileOk(Longer(file, size), data + [ino], SetWord(blocks, file.l1, j, ino))
  {
    var db := blocks[file.dbIndirect];
    assert TableOk(db[q], q, data, blocks);
    var blocks' := SetWord(blocks, file.l1, j, ino);
    var data' := data + [ino];
    forall p | 0 <= p < NENTRY ensures TableOk(db[p], p, data', blocks') {
      TableGrows(db[p], p, q, j, data, blocks, ino, file.l1);
    }
    NextTable(file, data, blocks, q, j);
    assert SingleOk(Longer(file, size), data', blocks');
  }

  // Table p when the block after data goes to word j of table q.
  lemma {:induction false} TableGrows(table: nat, p: nat, q: nat, j: nat, data: seq<nat>, blocks: map<nat, seq<nat>>,
                                      ino: nat, current: nat)
    requires TableOk(table, p, data, blocks) && |data| == Lo(q) + j && j < NENTRY
    requires current in blocks && |blocks[current]| == NENTRY && (p == q <==> table == current) && current != 0
    ensures TableOk(table, p, data + [ino], SetWord(blocks, current, j, ino))
  {
    if p < q {
      LoGrows(p, q);
    } else if p > q {
      LoGrows(q, p);
    }
  }

  // Past the end of a table the next one does not exist yet.
  lemma {:induction false} NextTable(file: File, data: seq<nat>, blocks: map<nat, seq<nat>>, q: nat, j: nat)
    requires DoubleOk(file, data, blocks) && file.dbIndirect != 0 && |data| == Lo(q) + j && j < NENTRY
    ensures var p := Quotient(|data| + 1 - L1_NBLKS, NENTRY);
      p == q || (p < NENTRY ==> blocks[file.dbIndirect][p] == 0)
  {
    var p, r := Split(|data| + 1 - L1_NBLKS);
    var db := blocks[file.dbIndirect];
    if p < q {
      LoGrows(p, q);
    } else if p > q && p < NENTRY {
      assert TableOk(db[p], p, data, blocks);
      LoGrows(q, p);
    }
  }

  // ---------- The other files ----------

  // Changing blocks the file does not use changes nothing for it.
  lemma {:induction false} FileKept(file: File, data: seq<nat>, blocks: map<nat, seq<nat>>, blocks': map<nat, seq<nat>>)
    requires FileOk(file, data, blocks)
    requires forall b :: b in blocks && (b == file.indirect || b == file.dbIndirect) ==>
      b in blocks' && blocks'[b] == blocks[b]
    requires file.dbIndirect in blocks ==> forall q :: 0 <= q < |blocks[file.dbIndirect]| ==>
      var b := blocks[file.dbIndirect][q]; b in blocks ==> b in blocks' && blocks'[b] == blocks[b]
    requires file.dbIndirect == 0 ==> file.dbIndirect !in blocks'
    ensures FileOk(file, data, blocks')
  {
    if file.dbIndirect != 0 {
      forall q | 0 <= q < NENTRY ensures TableOk(blocks'[file.dbIndirect][q], q, data, blocks') {
        assert TableOk(blocks[file.dbIndirect][q], q, data, blocks);
      }
    }
  }
}

module SfsImage {
  import opened Arith
  import opened SfsBlocks

  // Block b has this role.
  ghost predicate Has(im: Image, role: Role, b: nat) {
    match role
    case Inode(f) => f < |im.files| && im.files[f].ino == b
    case Data(f, i) => f < |im.data| && i < |im.data[f]| && im.data[f][i] == b
    case Single(f) => f < |im.files| && im.files[f].indirect == b != 0
    case Double(f) => f < |im.files| && im.files[f].dbIndirect == b != 0
    case Table(f, q) => f < |im.files| && im.files[f].dbIndirect != 0
                        && Word(im.blocks, im.files[f].dbIndirect, q) == b != 0
  }

  ghost predicate IsIndex(role: Role) {
    role.Single? || role.Double? || role.Table?
  }

  // Every owned block has one role, and every role it has is that one.
  ghost predicate OwnerExact(im: Image) {
    forall b, role :: Has(im, role, b) <==> b in im.owner && im.owner[b] == role
  }

  // The cached blocks are the index blocks.
  ghost predicate IndexExact(im: Image) {
    forall b :: b in im.blocks <==> b in im.owner && IsIndex(im.owner[b])
  }

  ghost predicate FilesOk(im: Image) {
    |im.data| == |im.files| && forall f :: 0 <= f < |im.files| ==> FileOk(im.files[f], im.data[f], im.blocks)
  }

  ghost predicate Good(im: Image) {
    FilesOk(im) && OwnerExact(im) && IndexExact(im) && 0 !in im.owner
  }

  // ---------- Steps ----------

  function WithFile(im: Image, ino: nat): Image {
    im.(files := im.files + [File(ino, 0, 0, 0, seq(NDIRECT, i => 0), 0, 0, 0, 0)],
        data := im.data + [[]], owner := im.owner[ino := Inode(|im.files|)])
  }

  lemma {:induction false} WithFileKeeps(im: Image, ino: nat)
    requires Good(im) && ino !in im.owner && ino != 0
    ensures Good(WithFile(im, ino))
  {
    var im' := WithFile(im, ino);
    forall f | 0 <= f < |im'.files| ensures FileOk(im'.files[f], im'.data[f], im'.blocks) {
      if f == |im.files| {
        assert im'.data[f] == [];
      }
    }
    forall b, role ensures Has(im', role, b) <==> b in im'.owner && im'.owner[b] == role {
      assert Has(im, role, b) <==> b in im.owner && im.owner[b] == role;
    }
  }

  function WithSingle(im: Image, f: nat, n: nat): Image
    requires f < |im.files|
  {
    im.(files := im.files[f := im.files[f].(indirect := n, l1 := n)],
        blocks := im.blocks[n := Zeros()], owner := im.owner[n := Single(f)])
  }

  // A fresh block does not disturb a file.
  lemma {:induction false} FreshKept(im: Image, f: nat, n: nat)
    requires Good(im) && f < |im.files| && n !in im.owner && n != 0
    ensures FileOk(im.files[f], im.data[f], im.blocks[n := Zeros()])
  {
    FileKept(im.files[f], im.data[f], im.blocks, im.blocks[n := Zeros()]);
  }

  lemma {:induction false} WithSingleKeeps(im: Image, f: nat, n: nat)
    requires Good(im) && f < |im.files| && n !in im.owner && n != 0
    requires im.files[f].indirect == 0 && NDIRECT <= |im.data[f]| < L1_NBLKS
    ensures Good(WithSingle(im, f, n))
  {
    var im' := WithSingle(im, f, n);
    forall g | 0 <= g < |im.files| ensures FileOk(im'.files[g], im'.data[g], im'.blocks) {
      if g == f {
        SingleNew(im.files[f], im.data[f], im.blocks, n);
      } else {
        FreshKept(im, g, n);
      }
    }
    forall b, role ensures Has(im', role, b) <==> b in im'.owner && im'.owner[b] == role {
      assert Has(im, role, b) <==> b in im.owner && im.owner[b] == role;
    }
  }

  function WithDouble(im: Image, f: nat, n: nat): Image
    requires f < |im.files|
  {
    im.(files := im.files[f := im.files[f].(dbIndirect := n, l2 := n)],
        blocks := im.blocks[n := Zeros()], owner := im.owner[n := Double(f)])
  }

  lemma {:induction false} WithDoubleKeeps(im: Image, f: nat, n: nat)
    requires Good(im) && f < |im.files| && n !in im.owner && n != 0
    requires im.files[f].dbIndirect == 0 && L1_NBLKS <= |im.data[f]|
    ensures Good(WithDouble(im, f, n))
  {
    var im' := WithDouble(im, f, n);
    forall g | 0 <= g < |im.files| ensures FileOk(im'.files[g], im'.data[g], im'.blocks) {
      if g == f {
        DoubleNew(im.files[f], im.data[f], im.blocks, n);
      } else {
        FreshKept(im, g, n);
      }
    }
    forall b, role ensures Has(im', role, b) <==> b in im'.owner && im'.owner[b] == role {
      assert Has(im, role, b) <==> b in im.owner && im.owner[b] == role;
    }
  }

  // A change to an index block of one file does not disturb another.
  lemma {:induction false} OtherFile(im: Image, f: nat, g: nat, b: nat, blocks: map<nat, seq<nat>>)
    requires Good(im) && g < |im.files| && g != f && b in im.owner
    requires im.owner[b] == Single(f) || im.owner[b] == Double(f) || (im.owner[b].Table? && im.owner[b].f == f)
    requires 0 !in blocks && forall c :: c in im.blocks && c != b ==> c in blocks && blocks[c] == im.blocks[c]
    ensures FileOk(im.files[g], im.data[g], blocks)
  {
    var file := im.files[g];
    assert !Has(im, Single(g), b) && !Has(im, Double(g), b);
    if file.dbIndirect in im.blocks {
      forall q: nat | q < |im.blocks[file.dbIndirect]| ensures im.blocks[file.dbIndirect][q] != b {
        assert !Has(im, Table(g, q), b);
      }
    }
    FileKept(file, im.data[g], im.blocks, blocks);
  }

  // The index blocks of one file are different blocks.
  lemma {:induction false} Apart(im: Image, f: nat)
    requires Good(im) && f < |im.files| && im.files[f].dbIndirect != 0
    ensures im.files[f].dbIndirect in im.blocks && im.files[f].indirect != im.files[f].dbIndirect
    ensures forall p :: 0 <= p < NENTRY ==>
      var b := Word(im.blocks, im.files[f].dbIndirect, p);
      b != 0 ==> b != im.files[f].dbIndirect && b != im.files[f].indirect
    ensures forall p, p' :: 0 <= p < p' < NENTRY ==>
      var b, b' := Word(im.blocks, im.files[f].dbIndirect, p), Word(im.blocks, im.files[f].dbIndirect, p');
      b != 0 ==> b != b'
  {
    var file := im.files[f];
    assert Has(im, Double(f), file.dbIndirect);
    assert file.indirect != 0 ==> Has(im, Single(f), file.indirect);
    forall p | 0 <= p < NENTRY && Word(im.blocks, file.dbIndirect, p) != 0
      ensures Has(im, Table(f, p), Word(im.blocks, file.dbIndirect, p))
    {
    }
  }

  function WithTableBlock(im: Image, f: nat, q: nat, n: nat): Image
    requires f < |im.files| && im.files[f].dbIndirect in im.blocks && q < |im.blocks[im.files[f].dbIndirect]|
  {
    im.(files := im.files[f := im.files[f].(l1 := n)],
        blocks := WithTable(im.blocks, im.files[f].dbIndirect, q, n), owner := im.owner[n := Table(f, q)])
  }

  lemma {:induction false} WithTableKeeps(im: Image, f: nat, q: nat, n: nat)
    requires Good(im) && f < |im.files| && n !in im.owner && n != 0
    requires im.files[f].dbIndirect != 0 && im.files[f].dbIndirect in im.blocks
    requires L1_NBLKS <= |im.data[f]| && q == Quotient(|im.data[f]| - L1_NBLKS, NENTRY) < NENTRY
    requires |im.blocks[im.files[f].dbIndirect]| == NENTRY && im.blocks[im.files[f].dbIndirect][q] == 0
    ensures Good(WithTableBlock(im, f, q, n))
  {
    var im' := WithTableBlock(im, f, q, n);
    var db := im.files[f].dbIndirect;
    Apart(im, f);
    assert Has(im, Double(f), db);
    forall g | 0 <= g < |im.files| ensures FileOk(im'.files[g], im'.data[g], im'.blocks) {
      if g == f {
        assert forall p :: 0 <= p < NENTRY ==> Word(im.blocks, db, p) == im.blocks[db][p];
        TableNew(im.files[f], im.data[f], im.blocks, q, n);
      } else {
        OtherFile(im, f, g, db, im'.blocks);
      }
    }
    WithTableOwner(im, f, q, n);
  }

  lemma {:induction false} WithTableOwner(im: Image, f: nat, q: nat, n: nat)
    requires Good(im) && f < |im.files| && n !in im.owner && n != 0
    requires im.files[f].dbIndirect != 0 && im.files[f].dbIndirect in im.blocks
    requires q < |im.blocks[im.files[f].dbIndirect]| && im.blocks[im.files[f].dbIndirect][q] == 0
    ensures OwnerExact(WithTableBlock(im, f, q, n)) && IndexExact(WithTableBlock(im, f, q, n))
  {
    hide FilesOk, FileOk;
    var im' := WithTableBlock(im, f, q, n);
    var db := im.files[f].dbIndirect;
    assert Has(im, Double(f), db);
    forall g, p | 0 <= g < |im.files| && im.files[g].dbIndirect != 0
      ensures Word(im'.blocks, im.files[g].dbIndirect, p)
           == if g == f && p == q then n else Word(im.blocks, im.files[g].dbIndirect, p)
    {
      assert Has(im, Double(g), im.files[g].dbIndirect);
    }
    forall b, role ensures Has(im', role, b) <==> b in im'.owner && im'.owner[b] == role {
      assert Has(im, role, b) <==> b in im.owner && im.owner[b] == role;
    }
  }

  // ---------- Appending a block ----------

  // Block ino becomes the next block of file f, recorded in its inode or in an
  // index block.
  function Appended(im: Image, f: nat, ino: nat, file: File, blocks: map<nat, seq<nat>>): Image
    requires f < |im.files| && f < |im.data|
  {
    im.(files := im.files[f := file], blocks := blocks, data := im.data[f := im.data[f] + [ino]],
        owner := im.owner[ino := Data(f, |im.data[f]|)])
  }

  lemma {:induction false} AppendedOwner(im: Image, f: nat, ino: nat, file: File, blocks: map<nat, seq<nat>>)
    requires Good(im) && f < |im.files| && ino !in im.owner
    requires file.ino == im.files[f].ino && file.indirect == im.files[f].indirect
    requires file.dbIndirect == im.files[f].dbIndirect && blocks.Keys == im.blocks.Keys
    requires forall b :: b in im.blocks && im.owner[b].Double? ==> blocks[b] == im.blocks[b]
    ensures OwnerExact(Appended(im, f, ino, file, blocks)) && IndexExact(Appended(im, f, ino, file, blocks))
  {
    hide FilesOk, FileOk;
    assert |im.data| == |im.files| by { SameLength(im); }
    var im' := Appended(im, f, ino, file, blocks);
    forall g, p | 0 <= g < |im.files| && im.files[g].dbIndirect != 0
      ensures Word(blocks, im.files[g].dbIndirect, p) == Word(im.blocks, im.files[g].dbIndirect, p)
    {
      assert Has(im, Double(g), im.files[g].dbIndirect);
    }
    forall b, role ensures Has(im', role, b) <==> b in im'.owner && im'.owner[b] == role {
      assert Has(im, role, b) <==> b in im.owner && im.owner[b] == role;
    }
  }

  lemma {:induction false} SameLength(im: Image)
    requires Good(im)
    ensures |im.data| == |im.files|
  {
  }

  function DirectFile(file: File, ino: nat, size: nat): File
    requires file.nblks < |file.direct|
  {
    var direct: seq<nat> := file.direct[file.nblks := ino];
    Longer(file, size).(direct := direct)
  }

  lemma {:induction false} PutDirectKeeps(im: Image, f: nat, ino: nat, size: nat)
    requires Good(im) && f < |im.files| && ino !in im.owner && ino != 0
    requires |im.data[f]| < NDIRECT
    ensures im.files[f].nblks < |im.files[f].direct|
    ensures Good(Appended(im, f, ino, DirectFile(im.files[f], ino, size), im.blocks))
  {
    var file := DirectFile(im.files[f], ino, size);
    var im' := Appended(im, f, ino, file, im.blocks);
    AppendedOwner(im, f, ino, file, im.blocks);
    PutDirect(im.files[f], im.data[f], im.blocks, ino, size);
  }

  lemma {:induction false} PutSingleKeeps(im: Image, f: nat, ino: nat, size: nat)
    requires Good(im) && f < |im.files| && ino !in im.owner && ino != 0
    requires NDIRECT <= |im.data[f]| < L1_NBLKS && im.files[f].indirect != 0
    ensures im.files[f].l1 in im.blocks && |im.blocks[im.files[f].l1]| == NENTRY
    ensures Good(Appended(im, f, ino, Longer(im.files[f], size),
                          SetWord(im.blocks, im.files[f].l1, |im.data[f]| - NDIRECT, ino)))
  {
    var file := im.files[f];
    PutSingle(file, im.data[f], im.blocks, ino, size);
    var blocks := SetWord(im.blocks, file.l1, |im.data[f]| - NDIRECT, ino);
    assert Has(im, Single(f), file.l1);
    AppendedOwner(im, f, ino, Longer(file, size), blocks);
    PutOthers(im, f, file.l1, |im.data[f]| - NDIRECT, ino);
  }

  lemma {:induction false} PutTableKeeps(im: Image, f: nat, q: nat, j: nat, ino: nat, size: nat)
    requires Good(im) && f < |im.files| && ino !in im.owner && ino != 0
    requires L1_NBLKS <= |im.data[f]| < LN_NBLKS && im.files[f].dbIndirect != 0
    requires |im.data[f]| - L1_NBLKS == Times(q, NENTRY) + j && j < NENTRY
    requires q == Quotient(|im.data[f]| - L1_NBLKS, NENTRY) < NENTRY
    requires im.files[f].l1 == Word(im.blocks, im.files[f].dbIndirect, q) != 0
    ensures im.files[f].l1 in im.blocks && |im.blocks[im.files[f].l1]| == NENTRY
    ensures Good(Appended(im, f, ino, Longer(im.files[f], size), SetWord(im.blocks, im.files[f].l1, j, ino)))
    ensures im.files[f].l1 != im.files[f].dbIndirect
  {
    var file := im.files[f];
    var db := file.dbIndirect;
    Apart(im, f);
    assert Has(im, Double(f), db);
    forall p | 0 <= p < NENTRY && p != q ensures im.blocks[db][p] != file.l1 {
      assert im.blocks[db][p] == Word(im.blocks, db, p);
    }
    PutTable(file, im.data[f], im.blocks, ino, size, q, j);
    var blocks := SetWord(im.blocks, file.l1, j, ino);
    assert Has(im, Table(f, q), file.l1);
    AppendedOwner(im, f, ino, Longer(file, size), blocks);
    PutOthers(im, f, file.l1, j, ino);
  }

  lemma {:induction false} PutOthers(im: Image, f: nat, b: nat, j: nat, ino: nat)
    requires Good(im) && f < |im.files| && b in im.blocks && j < |im.blocks[b]|
    requires im.owner[b] == Single(f) || (im.owner[b].Table? && im.owner[b].f == f)
    ensures forall g :: 0 <= g < |im.files| && g != f ==>
      FileOk(im.files[g], im.data[g], SetWord(im.blocks, b, j, ino))
  {
    forall g | 0 <= g < |im.files| && g != f
      ensures FileOk(im.files[g], im.data[g], SetWord(im.blocks, b, j, ino))
    {
      OtherFile(im, f, g, b, SetWord(im.blocks, b, j, ino));
    }
  }

  // ---------- The cached pointers ----------

  lemma {:induction false} CachedSingle(im: Image, f: nat)
    requires Good(im) && f < |im.files| == |im.data| && NDIRECT <= |im.data[f]| < L1_NBLKS
    ensures im.files[f].indirect != 0 ==> im.files[f].l1 == im.files[f].indirect
  {
  }

  lemma {:induction false} CachedDouble(im: Image, f: nat)
    requires Good(im) && f < |im.files| == |im.data|
    ensures im.files[f].dbIndirect != 0 ==> im.files[f].l2 == im.files[f].dbIndirect
  {
  }

  lemma {:induction false} CachedTable(im: Image, f: nat, q: nat)
    requires Good(im) && f < |im.files| == |im.data| && im.files[f].dbIndirect != 0
    requires L1_NBLKS <= |im.data[f]| && q == Quotient(|im.data[f]| - L1_NBLKS, NENTRY) < NENTRY
    ensures var db := im.files[f].dbIndirect;
      && db in im.blocks && |im.blocks[db]| == NENTRY && db in im.owner
      && (im.blocks[db][q] != 0 ==> im.files[f].l1 == im.blocks[db][q])
  {
  }

  // How many index blocks must be made before the next block can be entered.
  function Needed(file: File, blocks: map<nat, seq<nat>>): nat {
    if file.nblks < NDIRECT then 0
    else if file.nblks < L1_NBLKS then (if file.indirect == 0 then 1 else 0)
    else if file.dbIndirect == 0 then 2
    else if Word(blocks, file.dbIndirect, Quotient(file.nblks - L1_NBLKS, NENTRY)) == 0 then 1
    else 0
  }

  lemma {:induction false} CountOf(im: Image, f: nat)
    requires Good(im) && f < |im.files|
    ensures |im.data| == |im.files| && im.files[f].nblks == |im.data[f]| && |im.files[f].direct| == NDIRECT
  {
  }
}
