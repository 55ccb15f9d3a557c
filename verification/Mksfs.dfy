/**
 The image builder of lab8/tools/mksfs.c: a bump allocator of block numbers, files and directories
 that grow block by block, and the final flush.  A method that returns `ok == false` models the
 process giving up (`bug` or a failed assertion); nothing is said about the image then.
 */
module Mksfs {
  import opened Words
  import opened SfsLayout
  import opened SfsInode

  const HASH_LIST_SIZE: nat := 1024

  /** The upper 10 bits of the 32-bit product with GOLDEN_RATIO_PRIME_32. */
  function Hash32(val: nat): (r: nat)
    ensures r < HASH_LIST_SIZE
  {
    val * 0x9e37_0001 % 0x1_0000_0000 / 0x40_0000
  }

  function Hash64(val: nat): (r: nat)
    ensures r < HASH_LIST_SIZE
  {
    Hash32(val % 0x1_0000_0000)
  }

  /** Number 3 hashes elsewhere than 0: a search for the block with that number would miss it. */
  lemma HashesDiffer()
    ensures Hash32(0) == 0 && Hash32(3) == 874
  {
  }

  /** The first number behind the superblock, the root inode and the free map. */
  function FirstIno(ninos: nat): nat {
    BLKN_FREEMAP + (ninos + BLKBITS - 1) / BLKBITS
  }

  /** What a block number was handed out for. */
  datatype Role = IndexOf(cb: CacheBlock) | NodeOf(file: CacheInode) | DataOf(owner: CacheInode, index: nat)

  /** The index blocks that append_block allocates before it stores the number of block n. */
  function NewTables(n: nat): nat {
    if n < NDIRECT || (n - NDIRECT) % NENTRY != 0 then 0 else if n == L1_NBLKS then 2 else 1
  }

  /** alloc_cache_block hashes its argument, which is always 0, so that every index block is in the first bucket. */
  ghost predicate Buckets(inodes: seq<seq<CacheInode>>, blocks: seq<seq<CacheBlock>>, files: set<CacheInode>,
      tables: set<CacheBlock>) {
    && |inodes| == |blocks| == HASH_LIST_SIZE
    && (forall cb :: cb in tables ==> cb in blocks[Hash32(0)])
    && (forall k :: 0 <= k < |blocks[Hash32(0)]| ==> blocks[Hash32(0)][k] in tables)
    && (forall b :: 0 <= b < HASH_LIST_SIZE && b != Hash32(0) ==> blocks[b] == [])
    && (forall f :: f in files ==> f in inodes[Hash64(f.realIno)])
    && (forall b, k :: 0 <= b < HASH_LIST_SIZE && 0 <= k < |inodes[b]| ==> inodes[b][k] in files)
  }

  /** Exactly the numbers from the first one up to the next one have been handed out. */
  ghost predicate Numbered(role: map<nat, Role>, first: nat, next: nat) {
    forall n :: n in role <==> first <= n < next
  }

  ghost predicate Tabled(tables: set<CacheBlock>, role: map<nat, Role>) {
    forall cb :: cb in tables ==> cb.ino in role && role[cb.ino] == IndexOf(cb)
  }

  /** No index block belongs to two files. */
  ghost predicate Apart(files: set<CacheInode>, tables: set<CacheBlock>)
    reads files
  {
    && (forall f :: f in files ==> f.repr <= tables)
    && (forall f, g :: f in files && g in files && f != g ==> f.repr !! g.repr)
  }

  /** Block i of file f got its number for that, and the image holds what was written there. */
  ghost predicate Stored(f: CacheInode, i: nat, role: map<nat, Role>, image: map<nat, Content>)
    reads f
    requires i < |f.numbers| == |f.contents|
  {
    var n := f.numbers[i];
    n in role && role[n] == DataOf(f, i) && n in image && image[n] == f.contents[i]
  }

  ghost predicate FileOk(f: CacheInode, root: CacheInode, role: map<nat, Role>, image: map<nat, Content>)
    reads f, f.repr
  {
    && f.Shape() && |f.numbers| == |f.contents|
    && (if f == root then f.ino == BLKN_ROOT else f.ino in role && role[f.ino] == NodeOf(f))
    && (forall i :: 0 <= i < |f.numbers| ==> Stored(f, i, role, image))
  }

  ghost predicate Filed(files: set<CacheInode>, tables: set<CacheBlock>, root: CacheInode, role: map<nat, Role>,
      image: map<nat, Content>)
    reads files, tables
  {
    forall f :: f in files ==> f.repr <= tables && FileOk(f, root, role, image)
  }

  ghost predicate AllSettled(files: set<CacheInode>)
    reads files
  {
    forall f :: f in files ==> f.Settled()
  }

  /** No number changes its role. */
  ghost predicate Extends(role: map<nat, Role>, more: map<nat, Role>) {
    forall n :: n in role ==> n in more && more[n] == role[n]
  }

  // ---------------------------------------------------------------- what changes, and what stays

  lemma RoleAdded(role: map<nat, Role>, first: nat, next: nat, r: Role)
    requires Numbered(role, first, next) && first <= next
    ensures next !in role && Numbered(role[next := r], first, next + 1)
  {
  }

  lemma TableAdded(tables: set<CacheBlock>, role: map<nat, Role>, cb: CacheBlock)
    requires Tabled(tables, role) && cb.ino !in role
    ensures Tabled(tables + {cb}, role[cb.ino := IndexOf(cb)])
  {
  }

  lemma TablesKept(tables: set<CacheBlock>, role: map<nat, Role>, n: nat, r: Role)
    requires Tabled(tables, role) && n !in role
    ensures Tabled(tables, role[n := r])
  {
  }

  /** A new number, for something new, leaves the files alone. */
  lemma FilesKept(files: set<CacheInode>, tables: set<CacheBlock>, more: set<CacheBlock>, root: CacheInode,
      role: map<nat, Role>, image: map<nat, Content>, n: nat, r: Role)
    requires Filed(files, tables, root, role, image) && n !in role && tables <= more
    ensures Filed(files, more, root, role[n := r], image)
  {
    hide CacheInode.Shape;
    var roles := role[n := r];
    forall f | f in files
      ensures FileOk(f, root, roles, image)
    {
      assert FileOk(f, root, role, image);
      forall i | 0 <= i < |f.numbers|
        ensures Stored(f, i, roles, image)
      {
        assert Stored(f, i, role, image);
      }
    }
  }

  lemma FileIs(files: set<CacheInode>, tables: set<CacheBlock>, root: CacheInode, role: map<nat, Role>,
      image: map<nat, Content>, file: CacheInode)
    requires Filed(files, tables, root, role, image) && file in files
    ensures file.repr <= tables && FileOk(file, root, role, image) && file.Shape()
  {
  }

  /** A new file, still empty, joins the others. */
  lemma FilesAdd(files: set<CacheInode>, tables: set<CacheBlock>, root: CacheInode, role: map<nat, Role>,
      image: map<nat, Content>, file: CacheInode)
    requires Filed(files, tables, root, role, image) && Apart(files, tables) && AllSettled(files) && root in files
    requires file !in files
    requires file.repr == {} && file.numbers == [] && file.contents == [] && file.Shape() && file.Settled()
    requires file.ino in role && role[file.ino] == NodeOf(file)
    ensures Filed(files + {file}, tables, root, role, image) && Apart(files + {file}, tables)
    ensures AllSettled(files + {file})
  {
    hide CacheInode.Shape, CacheInode.Settled;
  }

  lemma DoublePlace(n: nat)
    requires L1_NBLKS <= n < LN_NBLKS
    ensures var k := (n - L1_NBLKS) / NENTRY; k + 1 == (n - NDIRECT) / NENTRY && k < NENTRY
    ensures (n - L1_NBLKS) % NENTRY == (n - NDIRECT) % NENTRY
    ensures n == L1_NBLKS <==> (n - L1_NBLKS) / NENTRY == 0 && (n - NDIRECT) % NENTRY == 0
  {
  }

  /** So does writing to a number that no file has data at. */
  lemma FilesKeptByWrite(files: set<CacheInode>, tables: set<CacheBlock>, root: CacheInode, role: map<nat, Role>,
      image: map<nat, Content>, n: nat, c: Content)
    requires Filed(files, tables, root, role, image)
    requires n in role && role[n].DataOf? && role[n].owner in files ==> role[n].index >= |role[n].owner.numbers|
    ensures Filed(files, tables, root, role, image[n := c])
  {
    hide CacheInode.Shape;
    var after := image[n := c];
    forall f | f in files
      ensures FileOk(f, root, role, after)
    {
      assert FileOk(f, root, role, image);
      forall i | 0 <= i < |f.numbers|
        ensures Stored(f, i, role, after)
      {
        assert Stored(f, i, role, image);
      }
    }
  }

  lemma BucketsAddTable(inodes: seq<seq<CacheInode>>, blocks: seq<seq<CacheBlock>>, files: set<CacheInode>,
      tables: set<CacheBlock>, cb: CacheBlock)
    requires Buckets(inodes, blocks, files, tables)
    ensures Buckets(inodes, blocks[Hash32(0) := [cb] + blocks[Hash32(0)]], files, tables + {cb})
  {
    hide Hash32, Hash64;
    var chain := [cb] + blocks[Hash32(0)];
    assert chain[0] == cb && forall k :: 0 < k < |chain| ==> chain[k] == blocks[Hash32(0)][k - 1];
    forall b | b in tables
      ensures b in chain
    {
      assert b in blocks[Hash32(0)];
    }
  }

  lemma BucketsAddFile(inodes: seq<seq<CacheInode>>, blocks: seq<seq<CacheBlock>>, files: set<CacheInode>,
      tables: set<CacheBlock>, file: CacheInode)
    requires Buckets(inodes, blocks, files, tables)
    ensures var h := Hash64(file.realIno); Buckets(inodes[h := [file] + inodes[h]], blocks, files + {file}, tables)
  {
    hide Hash32, Hash64;
    var h := Hash64(file.realIno);
    var chain := [file] + inodes[h];
    var after := inodes[h := chain];
    assert chain[0] == file && forall k :: 0 < k < |chain| ==> chain[k] == inodes[h][k - 1];
    forall f | f in files + {file}
      ensures f in after[Hash64(f.realIno)]
    {
      if f in files {
        assert f in inodes[Hash64(f.realIno)];
      }
    }
  }

  // ---------------------------------------------------------------- host files

  /** Only the last chunk may be short. */
  ghost predicate FullBlocks(chunks: seq<seq<Byte>>) {
    forall i :: 0 <= i < |chunks| - 1 ==> |chunks[i]| == BLKSIZE
  }

  ghost function PaddedAll(chunks: seq<seq<Byte>>): (r: seq<Content>)
    requires forall i :: 0 <= i < |chunks| ==> |chunks[i]| <= BLKSIZE
    ensures |r| == |chunks|
  {
    seq(|chunks|, i requires 0 <= i < |chunks| => Bytes(Padded(chunks[i])))
  }

  ghost function Total(chunks: seq<seq<Byte>>): nat {
    if chunks == [] then 0 else Total(chunks[..|chunks| - 1]) + |chunks[|chunks| - 1]|
  }

  /** The numbers that m blocks take, appended to a file of n blocks, with the index blocks among them. */
  ghost function Needed(n: nat, m: nat): nat {
    if m == 0 then 0 else Needed(n, m - 1) + 1 + NewTables(n + m - 1)
  }

  lemma {:induction false} NeededGrows(n: nat, i: nat, m: nat)
    requires i <= m
    ensures Needed(n, i) <= Needed(n, m)
  {
    if i < m {
      NeededGrows(n, i, m - 1);
    }
  }

  lemma NoChunks(chunks: seq<seq<Byte>>, n: nat)
    ensures FullBlocks(chunks[..0]) && PaddedAll(chunks[..0]) == [] && Total(chunks[..0]) == 0 && Needed(n, 0) == 0
    ensures chunks[..|chunks|] == chunks
  {
  }

  /** What one more chunk adds. */
  lemma OneChunk(chunks: seq<seq<Byte>>, i: nat, n: nat)
    requires i < |chunks| && forall j :: 0 <= j < |chunks| ==> |chunks[j]| <= BLKSIZE
    ensures FullBlocks(chunks[..i + 1]) <==> FullBlocks(chunks[..i]) && (i > 0 ==> |chunks[i - 1]| == BLKSIZE)
    ensures FullBlocks(chunks) && i > 0 ==> |chunks[i - 1]| == BLKSIZE
    ensures PaddedAll(chunks[..i + 1]) == PaddedAll(chunks[..i]) + [Bytes(Padded(chunks[i]))]
    ensures Total(chunks[..i + 1]) == Total(chunks[..i]) + |chunks[i]|
    ensures Needed(n, i + 1) == Needed(n, i) + 1 + NewTables(n + i) && Needed(n, i + 1) <= Needed(n, |chunks|)
  {
    hide Padded, NewTables;
    NeededGrows(n, i + 1, |chunks|);
    var a, b := chunks[..i], chunks[..i + 1];
    assert b[..|b| - 1] == a;
    assert FullBlocks(a) && (i > 0 ==> |chunks[i - 1]| == BLKSIZE) ==> FullBlocks(b) by {
      assert forall j :: 0 <= j < i ==> b[j] == chunks[j] == a[j];
    }
    if FullBlocks(b) {
      assert forall j :: 0 <= j < i ==> a[j] == b[j];
      assert i > 0 ==> b[i - 1] == chunks[i - 1];
    }
  }

  /**
   A file of m blocks takes m numbers, one for every 1024 behind the first 12, and one more for the
   double-indirect block.
   */
  lemma {:induction false} NeededIs(m: nat)
    requires m <= LN_NBLKS
    ensures Needed(0, m) == m + LeafCount(m) + if m > L1_NBLKS then 1 else 0
    ensures LeafCount(m) == if m <= 12 then 0 else (m - 12 + 1023) / 1024
  {
    if m > 0 {
      NeededIs(m - 1);
      if m > NDIRECT {
        LeafStep(m - 1);
      }
    }
  }

  // ---------------------------------------------------------------- the free map

  /** Bit k is set for exactly the numbers not handed out, they number `unused`, and the superblock says so. */
  ghost predicate MapWritten(image: map<nat, Content>, ninos: nat, next: nat, unused: nat) {
    && (forall k :: 0 <= k < MapBits(ninos) ==> (FreeBit(image, k) <==> next <= k < ninos))
    && FreeBits(image, MapBits(ninos)) == unused
    && BLKN_SUPER in image && image[BLKN_SUPER] == Super(ninos, unused)
  }

  /** Block 0 is the superblock with both counts, and the bits from block 2 on tell the numbers that are free. */
  ghost predicate MapIs(image: map<nat, Content>, ninos: nat, next: nat) {
    && next <= ninos && 0 in image && image[0] == Super(ninos, ninos - next)
    && forall k: nat :: k < ninos ==> (MapBit(image, k) <==> k >= next)
  }

  lemma MapWrittenIs(image: map<nat, Content>, ninos: nat, next: nat, unused: nat)
    requires MapWritten(image, ninos, next, unused) && unused == ninos - next
    ensures MapIs(image, ninos, next)
  {
    hide FreeBit, FreeBits, MapBit;
    forall k: nat | k < ninos
      ensures MapBit(image, k) <==> k >= next
    {
      assert k < MapBits(ninos);
      assert FreeBit(image, k) <==> next <= k < ninos;
      FreeBitIs(image, k);
    }
  }

  /** The bits in the blocks of the free map. */
  function MapBits(ninos: nat): nat {
    (ninos + BLKBITS - 1) / BLKBITS * BLKBITS
  }

  lemma MapBlockIsLow(ninos: nat, i: nat)
    requires i % BLKBITS == 0 && i < ninos
    ensures BLKN_FREEMAP + i / BLKBITS < FirstIno(ninos) && (i + BLKBITS) % BLKBITS == 0
    ensures (i + BLKBITS) / BLKBITS == i / BLKBITS + 1
  {
  }

  lemma MapExtended(image: map<nat, Content>, i: nat, words: seq<nat>, next: nat, ninos: nat)
    requires i % BLKBITS == 0 && forall k :: 0 <= k < i ==> (FreeBit(image, k) <==> next <= k < ninos)
    requires forall k :: 0 <= k < BLKBITS ==> (BitOf(words, k) <==> next <= i + k < ninos)
    ensures var after := image[BLKN_FREEMAP + i / BLKBITS := FreeMap(words)];
      forall k :: 0 <= k < i + BLKBITS ==> (FreeBit(after, k) <==> next <= k < ninos)
  {
    hide BitOf;
    var after := image[BLKN_FREEMAP + i / BLKBITS := FreeMap(words)];
    forall k | 0 <= k < i + BLKBITS
      ensures FreeBit(after, k) <==> next <= k < ninos
    {
      if k < i {
        assert FreeBit(image, k) <==> next <= k < ninos;
        assert k / BLKBITS < i / BLKBITS;
      } else {
        assert k / BLKBITS == i / BLKBITS && k % BLKBITS == k - i;
      }
    }
  }

  lemma MapDone(image: map<nat, Content>, ninos: nat, next: nat, i: nat, unused: nat)
    requires ninos <= i < ninos + BLKBITS && i % BLKBITS == 0 && next + unused == ninos
    requires forall k :: 0 <= k < i ==> (FreeBit(image, k) <==> next <= k < ninos)
    ensures MapWritten(image[BLKN_SUPER := Super(ninos, unused)], ninos, next, unused)
  {
    hide BitOf;
    assert i == MapBits(ninos);
    var after := image[BLKN_SUPER := Super(ninos, unused)];
    forall k | 0 <= k < i
      ensures FreeBit(after, k) <==> next <= k < ninos
    {
      assert FreeBit(image, k) <==> next <= k < ninos;
    }
    FreeBitsCount(after, i, next, ninos);
  }

  lemma MapKept(image: map<nat, Content>, ninos: nat, next: nat, unused: nat, n: nat, c: Content)
    requires MapWritten(image, ninos, next, unused) && next <= ninos && (n == BLKN_ROOT || n >= FirstIno(ninos))
    ensures MapWritten(image[n := c], ninos, next, unused)
  {
    hide BitOf;
    var after := image[n := c];
    forall k | 0 <= k < MapBits(ninos)
      ensures FreeBit(after, k) <==> next <= k < ninos
    {
      assert FreeBit(image, k) <==> next <= k < ninos;
      MapBits1(ninos, k);
    }
    FreeBitsCount(image, MapBits(ninos), next, ninos);
    FreeBitsCount(after, MapBits(ninos), next, ninos);
  }

  lemma MapBits1(ninos: nat, k: nat)
    requires k < MapBits(ninos)
    ensures BLKN_ROOT < BLKN_FREEMAP + k / BLKBITS < FirstIno(ninos)
  {
  }

  /** Every number in use is covered by the free map. */
  lemma Numbers(ninos: nat, n: nat)
    ensures n < ninos ==> n < MapBits(ninos)
    ensures FirstIno(ninos) > 0
  {
  }

  // ---------------------------------------------------------------- the flush

  ghost predicate Flushed(image: map<nat, Content>, tables: set<CacheBlock>, files: set<CacheInode>)
    reads tables, files
  {
    && (forall cb :: cb in tables ==> cb.ino in image && image[cb.ino] == Index(cb.cache))
    && (forall f :: f in files ==> f.ino in image && image[f.ino] == Node(f.Record()))
  }

  lemma NothingFlushed(image: map<nat, Content>)
    ensures Flushed(image, {}, {})
  {
  }

  /** Inodes and index blocks have different numbers, none of them of data. */
  lemma Names(files: set<CacheInode>, tables: set<CacheBlock>, root: CacheInode, role: map<nat, Role>,
      image: map<nat, Content>, first: nat, next: nat)
    requires Filed(files, tables, root, role, image) && Tabled(tables, role) && Numbered(role, first, next)
    requires first > BLKN_ROOT
    ensures forall f :: f in files ==> f.ino == BLKN_ROOT || (f.ino in role && role[f.ino] == NodeOf(f))
    ensures forall f, g :: f in files && g in files && f.ino == g.ino ==> f == g
    ensures forall f, cb :: f in files && cb in tables ==> f.ino != cb.ino
  {
    hide CacheInode.Shape;
    forall f | f in files
      ensures if f == root then f.ino == BLKN_ROOT else f.ino in role && role[f.ino] == NodeOf(f)
    {
      FileIs(files, tables, root, role, image, f);
    }
  }

  lemma BucketsHold(inodes: seq<seq<CacheInode>>, blocks: seq<seq<CacheBlock>>, files: set<CacheInode>,
      tables: set<CacheBlock>)
    requires Buckets(inodes, blocks, files, tables)
    ensures |inodes| == |blocks| == HASH_LIST_SIZE
    ensures forall b, k :: 0 <= b < HASH_LIST_SIZE && 0 <= k < |blocks[b]| ==> blocks[b][k] in tables
    ensures forall b, k :: 0 <= b < HASH_LIST_SIZE && 0 <= k < |inodes[b]| ==> inodes[b][k] in files
  {
    hide Hash32;
  }

  lemma BucketsCover(inodes: seq<seq<CacheInode>>, blocks: seq<seq<CacheBlock>>, files: set<CacheInode>,
      tables: set<CacheBlock>, doneB: set<CacheBlock>, doneF: set<CacheInode>)
    requires Buckets(inodes, blocks, files, tables) && doneB <= tables && doneF <= files
    requires forall b, k :: 0 <= b < HASH_LIST_SIZE && 0 <= k < |blocks[b]| ==> blocks[b][k] in doneB
    requires forall b, k :: 0 <= b < HASH_LIST_SIZE && 0 <= k < |inodes[b]| ==> inodes[b][k] in doneF
    ensures doneB == tables && doneF == files
  {
    hide Hash32;
    forall cb | cb in tables
      ensures cb in doneB
    {
      assert cb in blocks[Hash32(0)];
    }
    forall f | f in files
      ensures f in doneF
    {
      assert f in inodes[Hash64(f.realIno)];
    }
  }

  class Sfs {
    const ninos: nat
    const root: CacheInode
    var nextIno: nat
    var unusedBlocks: nat
    var inodes: seq<seq<CacheInode>>
    var blocks: seq<seq<CacheBlock>>
    var entryName: seq<Byte>
    var image: map<nat, Content>
    /** All inodes and index blocks, and what every number was handed out for. */
    ghost var files: set<CacheInode>
    ghost var tables: set<CacheBlock>
    ghost var role: map<nat, Role>

    ghost predicate Counters()
      reads this
    {
      && ninos <= MAX_NBLKS && FirstIno(ninos) <= nextIno <= ninos && unusedBlocks + nextIno == ninos
      && |inodes| == |blocks| == HASH_LIST_SIZE && |entryName| == FNAME_SIZE
    }

    /** The invariant, but for index blocks that are there before they are needed. */
    ghost predicate Sound()
      reads this, files, tables
    {
      && Counters() && root in files && Buckets(inodes, blocks, files, tables)
      && Numbered(role, FirstIno(ninos), nextIno) && Tabled(tables, role)
      && Apart(files, tables) && Filed(files, tables, root, role, image)
    }

    ghost predicate Valid()
      reads this, files, tables
    {
      Sound() && AllSettled(files)
    }

    constructor (ninos: nat)
      requires FirstIno(ninos) < ninos <= MAX_NBLKS
      ensures Valid() && this.ninos == ninos && nextIno == FirstIno(ninos) && files == {root} && fresh(root)
      ensures tables == {} && root.ino == 1
      ensures nextIno == 2 + (ninos + 32767) / 32768 && unusedBlocks == ninos - nextIno
      ensures root.kind == DIR && root.realIno == 0 && root.numbers == [] && root.nlinks == 0 && root.size == 0
    {
      var r := new CacheInode(0, BLKN_ROOT, DIR);
      this.ninos, nextIno, unusedBlocks, root := ninos, FirstIno(ninos), ninos - FirstIno(ninos), r;
      inodes := seq(HASH_LIST_SIZE, b => if b == Hash64(0) then [r] else []);
      blocks := seq(HASH_LIST_SIZE, _ => []);
      entryName, image := Zeros(FNAME_SIZE), map[];
      files, tables, role := {r}, {}, map[];
    }

    // -------------------------------------------------------------- numbers and index blocks

    /** sfs_alloc_ino */
    method AllocIno() returns (ok: bool, ino: nat)
      requires Counters()
      modifies this`nextIno, this`unusedBlocks
      ensures Counters() && ok == (old(nextIno) < ninos)
      ensures if ok then ino == old(nextIno) && nextIno == ino + 1 else nextIno == old(nextIno)
    {
      ok, ino := nextIno < ninos, 0;
      if ok {
        unusedBlocks := unusedBlocks - 1;
        ino := nextIno;
        nextIno := nextIno + 1;
      }
    }

    /** alloc_cache_block, as update_cache calls it. */
    method AllocCacheBlock() returns (ok: bool, cb: CacheBlock?)
      requires Sound()
      modifies this`nextIno, this`unusedBlocks, this`blocks, this`tables, this`role
      ensures ok == (old(nextIno) < ninos) && (ok ==> cb != null)
      ensures ok ==> Sound() && fresh(cb) && cb.ino == old(nextIno) && cb.ino > 0 && cb.cache == seq(NENTRY, _ => 0)
      ensures ok ==> nextIno == old(nextIno) + 1 && tables == old(tables) + {cb} && Extends(old(role), role)
    {
      hide Buckets, Numbered, Tabled, Filed;
      var ino;
      ok, ino := AllocIno();
      cb := null;
      if ok {
        cb := new CacheBlock(ino);
        RoleAdded(role, FirstIno(ninos), ino, IndexOf(cb));
        TableAdded(tables, role, cb);
        FilesKept(files, tables, tables + {cb}, root, role, image, ino, IndexOf(cb));
        BucketsAddTable(inodes, blocks, files, tables, cb);
        blocks := blocks[Hash32(0) := [cb] + blocks[Hash32(0)]];
        tables := tables + {cb};
        role := role[ino := IndexOf(cb)];
      }
    }

    /** search_cache_block: it finds a block only if its number hashes to the bucket that 0 hashes to. */
    method SearchCacheBlock(ino: nat) returns (cb: CacheBlock?)
      requires Sound()
      ensures cb != null ==> cb in tables && cb.ino == ino
      ensures cb != null <==> Hash32(ino) == Hash32(0) && exists t :: t in tables && t.ino == ino
    {
      var chain := blocks[Hash32(ino)];
      var k := 0;
      while k < |chain| && chain[k].ino != ino
        invariant k <= |chain| && forall j :: 0 <= j < k ==> chain[j].ino != ino
      {
        k := k + 1;
      }
      cb := if k < |chain| then chain[k] else null;
    }

    /**
     update_cache: `cb` and `ino` are the new values of the two places it is given; `searched` says that it
     went to the hash table.
     */
    method UpdateCache(cbp: CacheBlock?, inop: nat) returns (ok: bool, cb: CacheBlock?, ino: nat, ghost searched: bool)
      requires Sound()
      modifies this`nextIno, this`unusedBlocks, this`blocks, this`tables, this`role
      ensures searched == (inop != 0 && (cbp == null || cbp.ino != inop))
      ensures ok ==> Sound() && cb != null && cb.ino == ino
      ensures inop != 0 ==> nextIno == old(nextIno) && tables == old(tables) && role == old(role) && ino == inop
      ensures inop != 0 && !searched ==> ok && cb == cbp
      ensures searched ==> ok == (Hash32(inop) == Hash32(0) && exists t :: t in tables && t.ino == inop)
      ensures searched && ok ==> cb in tables
      ensures inop == 0 ==> ok == (old(nextIno) < ninos)
      ensures inop == 0 && ok ==> fresh(cb) && ino == old(nextIno) && ino > 0 && cb.cache == seq(NENTRY, _ => 0)
      ensures inop == 0 && ok ==> nextIno == ino + 1 && tables == old(tables) + {cb} && Extends(old(role), role)
    {
      hide Buckets, Numbered, Tabled, Filed, Apart;
      ok, cb, ino := true, cbp, inop;
      searched := inop != 0 && (cbp == null || cbp.ino != inop);
      if ino == 0 {
        ok, cb := AllocCacheBlock();
        if ok {
          ino := cb.ino;
        }
      } else if cb == null || cb.ino != ino {
        cb := SearchCacheBlock(ino);
        ok := cb != null;
      }
    }

    // -------------------------------------------------------------- append_block

    /** The index of `file` changes, and nothing else does. */
    method SetIndirect(file: CacheInode, cb: CacheBlock, n: nat)
      requires Sound() && file in files && (cb !in file.repr ==> forall g :: g in files ==> cb !in g.repr)
      requires cb in tables
      requires file.Settled() && NDIRECT <= file.nblks < L1_NBLKS
      requires if file.indirect == 0 then file.Blank(cb, n) else cb == file.l1 && n == file.indirect
      modifies file`l1, file`indirect, file`leaves, file`repr
      ensures Sound() && file.Shape() && old(file.repr) <= file.repr <= old(file.repr) + {cb}
      ensures |file.leaves| == LeafCount(file.nblks + 1) && file.l2 == null
    {
      hide Buckets, Numbered, Tabled, CacheInode.Shape;
      assert FileOk(file, root, role, image);
      file.Owns();
      file.SetIndirect(cb, n);
      assert forall g :: g in files && g != file && old(FileOk(g, root, role, image)) ==> FileOk(g, root, role, image);
      assert forall i :: 0 <= i < |file.numbers| && old(Stored(file, i, role, image)) ==> Stored(file, i, role, image);
    }

    method SetBranch(file: CacheInode, cb: CacheBlock, n: nat)
      requires Sound() && file in files && (cb !in file.repr ==> forall g :: g in files ==> cb !in g.repr)
      requires cb in tables
      requires file.Settled() && L1_NBLKS <= file.nblks
      requires if file.dbIndirect == 0 then file.Blank(cb, n) else cb == file.l2 && n == file.dbIndirect
      modifies file`l2, file`dbIndirect, file`repr
      ensures Sound() && file.Shape() && old(file.repr) <= file.repr <= old(file.repr) + {cb}
      ensures file.l2 == cb
    {
      hide Buckets, Numbered, Tabled, CacheInode.Shape;
      assert FileOk(file, root, role, image);
      file.Owns();
      file.SetBranch(cb, n);
      assert forall g :: g in files && g != file && old(FileOk(g, root, role, image)) ==> FileOk(g, root, role, image);
      assert forall i :: 0 <= i < |file.numbers| && old(Stored(file, i, role, image)) ==> Stored(file, i, role, image);
    }

    method SetLeaf(file: CacheInode, k: nat, cb: CacheBlock, n: nat)
      requires Sound() && file in files && (cb !in file.repr ==> forall g :: g in files ==> cb !in g.repr)
      requires cb in tables
      requires file.Shape() && file.l2 != null && k + 1 == (file.nblks - NDIRECT) / NENTRY && k < NENTRY
      requires |file.leaves| == LeafCount(file.nblks)
      requires if file.l2.cache[k] == 0 then file.Blank(cb, n) else cb == file.l1 && n == file.l2.cache[k]
      modifies file`l1, file`leaves, file`repr, file.l2
      ensures Sound() && file.Shape() && old(file.repr) <= file.repr <= old(file.repr) + {cb}
      ensures |file.leaves| == LeafCount(file.nblks + 1) && file.l2 == old(file.l2)
    {
      hide Buckets, Numbered, Tabled, CacheInode.Shape;
      assert FileOk(file, root, role, image);
      file.Owns();
      file.SetLeaf(k, cb, n);
      assert forall g :: g in files && g != file && old(FileOk(g, root, role, image)) ==> FileOk(g, root, role, image);
      assert forall i :: 0 <= i < |file.numbers| && old(Stored(file, i, role, image)) ==> Stored(file, i, role, image);
    }


    /** Number x was handed out for the next block of `file`, and its content is written. */
    ghost predicate Pending(file: CacheInode, x: nat, c: Content)
      reads this, file
    {
      x in role && role[x] == DataOf(file, |file.numbers|) && x in image && image[x] == c
    }

    /** The number goes into the index. */
    method PlaceDirect(file: CacheInode, x: nat, bytes: nat, ghost c: Content)
      requires Sound() && file in files && (forall g :: g in files && g != file ==> g.Settled()) && Pending(file, x, c)
      requires file.Settled() && file.nblks < NDIRECT
      modifies file
      ensures Valid() && file.numbers == old(file.numbers) + [x] && file.contents == old(file.contents) + [c]
      ensures file.size == old(file.size) + bytes && file.nlinks == old(file.nlinks) && file.repr == old(file.repr)
    {
      hide Buckets, Numbered, Tabled, CacheInode.Shape, CacheInode.Settled;
      assert FileOk(file, root, role, image);
      file.Owns();
      file.PlaceDirect(x, bytes, c);
      assert forall g :: g in files && g != file && old(FileOk(g, root, role, image)) ==> FileOk(g, root, role, image);
      assert forall g :: g in files && g != file && old(g.Settled()) ==> g.Settled();
      assert forall i :: 0 <= i < |old(file.numbers)| && old(Stored(file, i, role, image)) ==>
        Stored(file, i, role, image);
    }

    method PlaceLeaf(file: CacheInode, t: nat, x: nat, bytes: nat, ghost c: Content)
      requires Sound() && file in files && (forall g :: g in files && g != file ==> g.Settled()) && Pending(file, x, c)
      requires NDIRECT <= file.nblks < LN_NBLKS && t == (file.nblks - NDIRECT) % NENTRY
      requires |file.leaves| == LeafCount(file.nblks + 1) && (file.l2 != null <==> |file.leaves| > 1)
      modifies file, file.l1
      ensures Valid() && file.numbers == old(file.numbers) + [x] && file.contents == old(file.contents) + [c]
      ensures file.size == old(file.size) + bytes && file.nlinks == old(file.nlinks) && file.repr == old(file.repr)
    {
      hide Buckets, Numbered, Tabled, CacheInode.Shape, CacheInode.Settled;
      assert FileOk(file, root, role, image);
      file.Owns();
      file.PlaceLeaf(t, x, bytes, c);
      assert forall g :: g in files && g != file && old(FileOk(g, root, role, image)) ==> FileOk(g, root, role, image);
      assert forall g :: g in files && g != file && old(g.Settled()) ==> g.Settled();
      assert forall i :: 0 <= i < |old(file.numbers)| && old(Stored(file, i, role, image)) ==>
        Stored(file, i, role, image);
    }

    lemma Known(file: CacheInode)
      requires Sound() && file in files
      ensures file.Shape() && file.repr <= tables && file.nblks == |file.numbers| && |file.numbers| == |file.contents|
      ensures file.l1 != null ==> file.l1 in file.repr
      ensures file.l2 != null ==> file.l2 in file.repr
      ensures Counters()
    {
      FileIs(files, tables, root, role, image, file);
      file.Owns();
    }

    /** update_cache for the indirect block: afterwards `l1` is the leaf that the next number goes to. */
    method ReachIndirect(file: CacheInode) returns (ok: bool, ghost searched: bool)
      requires Valid() && file in files && NDIRECT <= file.nblks < L1_NBLKS
      modifies this`nextIno, this`unusedBlocks, this`blocks, this`tables, this`role
      modifies file`l1, file`indirect, file`leaves, file`repr
      ensures !searched && ok == (old(nextIno) + NewTables(file.nblks) <= ninos)
      ensures ok ==> Sound() && file.Shape() && |file.leaves| == LeafCount(file.nblks + 1) && file.l2 == null
      ensures ok ==> nextIno == old(nextIno) + NewTables(file.nblks) && Extends(old(role), role)
      ensures ok ==> tables >= old(tables) && fresh(tables - old(tables))
      ensures ok ==> file.repr <= tables && fresh(file.repr - old(file.repr))
    {
      hide Buckets, Numbered, Tabled, CacheInode.Shape, Filed, LeafCount, Apart;
      FileIs(files, tables, root, role, image, file);
      file.Owns();
      LeafStep(file.nblks);
      var cb, n;
      ok, cb, n, searched := UpdateCache(file.l1, file.indirect);
      if ok {
        SetIndirect(file, cb, n);
      }
    }

    /** update_cache for the double-indirect block. */
    method ReachBranch(file: CacheInode) returns (ok: bool, ghost searched: bool)
      requires Valid() && file in files && L1_NBLKS <= file.nblks < LN_NBLKS
      modifies this`nextIno, this`unusedBlocks, this`blocks, this`tables, this`role
      modifies file`l2, file`dbIndirect, file`repr
      ensures !searched && ok == (old(nextIno) + (if old(file.l2) == null then 1 else 0) <= ninos)
      ensures ok ==> Sound() && file.Shape() && file.l2 != null && (old(file.l2) != null ==> file.l2 == old(file.l2))
      ensures ok ==> nextIno == old(nextIno) + (if old(file.l2) == null then 1 else 0) && Extends(old(role), role)
      ensures ok ==> tables >= old(tables) && fresh(tables - old(tables))
      ensures ok ==> file.repr <= tables && fresh(file.repr - old(file.repr))
      ensures ok ==> (old(file.l2) == null ==> fresh(file.l2))
    {
      hide Buckets, Numbered, Tabled, CacheInode.Shape, Filed, LeafCount, Apart;
      FileIs(files, tables, root, role, image, file);
      file.Owns();
      var cb, n;
      ok, cb, n, searched := UpdateCache(file.l2, file.dbIndirect);
      if ok {
        SetBranch(file, cb, n);
      }
    }

    /** update_cache for a leaf under the double-indirect block. */
    method ReachLeaf(file: CacheInode, k: nat) returns (ok: bool, ghost searched: bool)
      requires Sound() && file in files && L1_NBLKS <= file.nblks < LN_NBLKS && k == (file.nblks - L1_NBLKS) / NENTRY
      requires |file.leaves| == LeafCount(file.nblks) && file.l2 != null && file.l2 in file.repr
      modifies this`nextIno, this`unusedBlocks, this`blocks, this`tables, this`role
      modifies file`l1, file`leaves, file`repr, file.l2
      ensures !searched && ok == (old(nextIno) + (if old(|file.leaves|) == k + 1 then 1 else 0) <= ninos)
      ensures ok ==> Sound() && file.Shape() && |file.leaves| == LeafCount(file.nblks + 1) > 1
      ensures ok ==> file.l2 == old(file.l2)
      ensures ok ==> nextIno == old(nextIno) + (if old(|file.leaves|) == k + 1 then 1 else 0)
      ensures ok ==> Extends(old(role), role) && tables >= old(tables) && fresh(tables - old(tables))
      ensures ok ==> file.repr <= tables && fresh(file.repr - old(file.repr))
    {
      hide Buckets, Numbered, Tabled, CacheInode.Shape, Filed, LeafCount, Apart;
      FileIs(files, tables, root, role, image, file);
      file.Owns();
      LeafStep(file.nblks);
      DoublePlace(file.nblks);
      file.BranchEntry(k);
      var cb, n;
      ok, cb, n, searched := UpdateCache(file.l1, file.l2.cache[k]);
      if ok {
        SetLeaf(file, k, cb, n);
      }
    }

    /** The two calls for the double-indirect block and the leaf. */
    method ReachDouble(file: CacheInode) returns (ok: bool, ghost searched: bool)
      requires Valid() && file in files && L1_NBLKS <= file.nblks < LN_NBLKS
      modifies this`nextIno, this`unusedBlocks, this`blocks, this`tables, this`role
      modifies file`l1, file`l2, file`dbIndirect, file`leaves, file`repr, file.l2
      ensures !searched && ok == (old(nextIno) + NewTables(file.nblks) <= ninos)
      ensures ok ==> Sound() && file.Shape() && |file.leaves| == LeafCount(file.nblks + 1) > 1 && file.l2 != null
      ensures ok ==> nextIno == old(nextIno) + NewTables(file.nblks) && Extends(old(role), role)
      ensures ok ==> tables >= old(tables) && fresh(tables - old(tables))
      ensures ok ==> file.repr <= tables && fresh(file.repr - old(file.repr))
    {
      hide Buckets, Numbered, Tabled, CacheInode.Shape, Filed, LeafCount, Apart, Sound;
      DoublePlace(file.nblks);
      LeafStep(file.nblks);
      ok, searched := ReachBranch(file);
      if ok {
        file.Owns();
        ghost var again;
        ok, again := ReachLeaf(file, (file.nblks - L1_NBLKS) / NENTRY);
        searched := searched || again;
      }
    }

    /** The number goes into the leaf that the inode names. */
    method AppendIndirect(file: CacheInode, size: nat, ino: nat, ghost c: Content)
      returns (ok: bool, ghost searched: bool)
      requires Valid() && file in files && Pending(file, ino, c) && NDIRECT <= file.nblks < L1_NBLKS
      modifies this`nextIno, this`unusedBlocks, this`blocks, this`tables, this`role, file, file.repr
      ensures !searched && ok == (old(nextIno) + NewTables(old(file.nblks)) <= ninos)
      ensures ok ==> Valid() && file.numbers == old(file.numbers) + [ino] && file.contents == old(file.contents) + [c]
      ensures ok ==> file.size == old(file.size) + size && file.nlinks == old(file.nlinks)
      ensures ok ==> nextIno == old(nextIno) + NewTables(old(file.nblks)) && Extends(old(role), role)
      ensures ok ==> tables >= old(tables) && fresh(tables - old(tables))
      ensures ok ==> file.repr <= tables && fresh(file.repr - old(file.repr))
    {
      hide Sound, CacheInode.Shape, LeafCount, NewTables;
      Known(file);
      LeafStep(file.nblks);
      var nblks := file.nblks;
      ok, searched := ReachIndirect(file);
      if ok {
        file.Owns();
        PlaceLeaf(file, nblks - NDIRECT, ino, size, c);
      }
    }

    /** The number goes into a leaf below the double-indirect block. */
    method AppendDouble(file: CacheInode, size: nat, ino: nat, ghost c: Content)
      returns (ok: bool, ghost searched: bool)
      requires Valid() && file in files && Pending(file, ino, c) && L1_NBLKS <= file.nblks < LN_NBLKS
      modifies this`nextIno, this`unusedBlocks, this`blocks, this`tables, this`role, file, file.repr
      ensures !searched && ok == (old(nextIno) + NewTables(old(file.nblks)) <= ninos)
      ensures ok ==> Valid() && file.numbers == old(file.numbers) + [ino] && file.contents == old(file.contents) + [c]
      ensures ok ==> file.size == old(file.size) + size && file.nlinks == old(file.nlinks)
      ensures ok ==> nextIno == old(nextIno) + NewTables(old(file.nblks)) && Extends(old(role), role)
      ensures ok ==> tables >= old(tables) && fresh(tables - old(tables))
      ensures ok ==> file.repr <= tables && fresh(file.repr - old(file.repr))
    {
      hide Sound, CacheInode.Shape, LeafCount, NewTables;
      Known(file);
      LeafStep(file.nblks);
      DoublePlace(file.nblks);
      var nblks := file.nblks;
      ok, searched := ReachDouble(file);
      if ok {
        file.Owns();
        PlaceLeaf(file, (nblks - L1_NBLKS) % NENTRY, ino, size, c);
      }
    }

    /**
     append_block: block number `ino`, with `size` bytes in it, becomes the next block of `file`.  It fails only
     when the file is too big or the index needs a block and there is none left; the hash table is never searched.
     */
    method AppendBlock(file: CacheInode, size: nat, ino: nat, ghost c: Content) returns (ok: bool, ghost searched: bool)
      requires Valid() && file in files && size <= BLKSIZE && Pending(file, ino, c)
      modifies this`nextIno, this`unusedBlocks, this`blocks, this`tables, this`role, file, file.repr
      ensures !searched && ok == (old(file.nblks) < 32768 && old(nextIno) + NewTables(old(file.nblks)) <= ninos)
      ensures ok ==> Valid() && file.numbers == old(file.numbers) + [ino] && file.contents == old(file.contents) + [c]
      ensures ok ==> file.size == old(file.size) + size && file.nlinks == old(file.nlinks)
      ensures ok ==> nextIno == old(nextIno) + NewTables(old(file.nblks)) && Extends(old(role), role)
      ensures ok ==> tables >= old(tables) && fresh(tables - old(tables))
      ensures ok ==> file.repr <= tables && fresh(file.repr - old(file.repr))
    {
      hide Sound, CacheInode.Shape, LeafCount, Pending;
      Known(file);
      ok, searched := true, false;
      var nblks := file.nblks;
      if nblks >= LN_NBLKS {
        return false, searched;
      }
      if nblks < NDIRECT {
        PlaceDirect(file, ino, size, c);
      } else if nblks < L1_NBLKS {
        ok, searched := AppendIndirect(file, size, ino, c);
      } else {
        ok, searched := AppendDouble(file, size, ino, c);
      }
    }

    // -------------------------------------------------------------- files, links and directory entries

    /** write_block; the assertion there is the precondition. */
    method WriteBlock(c: Content, ino: nat)
      requires ino < ninos
      modifies this`image
      ensures image == old(image)[ino := c]
    {
      image := image[ino := c];
    }

    /**
     A new number, the data written there, and the number appended to the file: the common part of add_entry,
     open_file and open_link.
     */
    method AppendData(file: CacheInode, data: seq<Byte>, size: nat) returns (ok: bool)
      requires Valid() && file in files && |data| <= BLKSIZE && size <= BLKSIZE
      modifies this`nextIno, this`unusedBlocks, this`blocks, this`tables, this`role, this`image, file, file.repr
      ensures ok == (old(file.nblks) < LN_NBLKS && old(nextIno) + 1 + NewTables(old(file.nblks)) <= ninos)
      ensures ok ==> Valid() && file.numbers == old(file.numbers) + [old(nextIno)]
      ensures ok ==> file.contents == old(file.contents) + [Bytes(Padded(data))]
      ensures ok ==> file.size == old(file.size) + size && file.nlinks == old(file.nlinks)
      ensures ok ==> nextIno == old(nextIno) + 1 + NewTables(old(file.nblks)) && Extends(old(role), role)
      ensures ok ==> tables >= old(tables) && fresh(tables - old(tables))
      ensures ok ==> file.repr <= tables && fresh(file.repr - old(file.repr))
    {
      hide Buckets, Numbered, Tabled, CacheInode.Shape, Filed, Apart, AllSettled;
      Known(file);
      var ino;
      ok, ino := AllocIno();
      if ok {
        ghost var c := Bytes(Padded(data));
        ghost var r := DataOf(file, |file.numbers|);
        RoleAdded(role, FirstIno(ninos), ino, r);
        TablesKept(tables, role, ino, r);
        FilesKept(files, tables, tables, root, role, image, ino, r);
        role := role[ino := r];
        FilesKeptByWrite(files, tables, root, role, image, ino, c);
        WriteBlock(Bytes(Padded(data)), ino);
        ghost var searched;
        ok, searched := AppendBlock(file, size, ino, c);
      }
    }

    /** add_entry: a directory block names `file`, and the file has one more link. */
    method AddEntry(current: CacheInode, file: CacheInode, name: seq<Byte>) returns (ok: bool)
      requires Valid() && current in files && file in files && current.kind == DIR && |name| < FNAME_SIZE
      modifies this`nextIno, this`unusedBlocks, this`blocks, this`tables, this`role, this`image, this`entryName
      modifies current, current.repr, file`nlinks
      ensures ok == (old(current.nblks) < LN_NBLKS && old(nextIno) + 1 + NewTables(old(current.nblks)) <= ninos)
      ensures ok ==> Valid() && current.numbers == old(current.numbers) + [old(nextIno)]
      ensures ok ==>
        current.contents == old(current.contents) + [Bytes(EntryBlock(file.ino, NameField(name, old(entryName))))]
      ensures ok ==> current.size == old(current.size) + 256
      ensures ok ==> file.nlinks == (old(file.nlinks) + 1) % 0x1_0000
      ensures ok ==> (file != current ==> current.nlinks == old(current.nlinks))
      ensures ok ==> nextIno == old(nextIno) + 1 + NewTables(old(current.nblks)) && Extends(old(role), role)
      ensures ok ==> tables >= old(tables) && fresh(tables - old(tables))
      ensures ok ==> current.repr <= tables && fresh(current.repr - old(current.repr))
    {
      hide Valid, NameField, EntryBlock, Padded;
      SetName(name);
      var entry := Le32(file.ino) + entryName;
      EntryPadded(file.ino, entryName);
      ok := AppendData(current, entry[..FNAME_SIZE], FNAME_SIZE);
      if ok {
        LinkFile(file);
      }
    }

    /** `strcpy(entry->name, name)` */
    method SetName(name: seq<Byte>)
      requires Valid() && |name| < FNAME_SIZE
      modifies this`entryName
      ensures Valid() && entryName == NameField(name, old(entryName))
    {
      hide Buckets, Numbered, Tabled, Filed, Apart, AllSettled;
      entryName := NameField(name, entryName);
    }

    method LinkFile(file: CacheInode)
      requires Valid() && file in files
      modifies file`nlinks
      ensures Valid() && file.nlinks == (old(file.nlinks) + 1) % 0x1_0000
    {
      hide Buckets, Numbered, Tabled, CacheInode.Shape, CacheInode.Settled;
      assert FileOk(file, root, role, image);
      SettledIs(file);
      file.AddLink();
      SettledIs(file);
      assert forall g :: g in files && g != file && old(FileOk(g, root, role, image)) ==> FileOk(g, root, role, image);
      assert forall g :: g in files && g != file && old(g.Settled()) ==> g.Settled();
      assert forall i :: 0 <= i < |old(file.numbers)| && old(Stored(file, i, role, image)) ==>
        Stored(file, i, role, image);
    }

    lemma SettledIs(file: CacheInode)
      ensures file.Settled() <==> |file.leaves| == LeafCount(file.nblks) && (file.l2 != null <==> |file.leaves| > 1)
    {
    }

    /** alloc_cache_inode for a new file */
    method AllocCacheInode(realIno: nat, kind: Kind) returns (ok: bool, file: CacheInode?)
      requires Valid()
      modifies this`nextIno, this`unusedBlocks, this`inodes, this`files, this`role
      ensures ok == (old(nextIno) < ninos) && (ok ==> file != null)
      ensures ok ==> Valid() && fresh(file) && file.ino == old(nextIno) && nextIno == old(nextIno) + 1
      ensures ok ==> files == old(files) + {file}
      ensures ok ==> file.realIno == realIno && file.kind == kind && file.numbers == [] && file.contents == []
      ensures ok ==> file.nlinks == 0 && file.size == 0
      ensures ok ==> file.repr == {} && file.nblks == 0 && Extends(old(role), role)
    {
      hide Buckets, Numbered, Tabled, Filed, Apart, AllSettled, Hash64, FirstIno, CacheInode.Shape, CacheInode.Settled;
      file := null;
      var ino;
      ok, ino := AllocIno();
      if ok {
        var f := new CacheInode(realIno, ino, kind);
        RoleAdded(role, FirstIno(ninos), ino, NodeOf(f));
        TablesKept(tables, role, ino, NodeOf(f));
        FilesKept(files, tables, tables, root, role, image, ino, NodeOf(f));
        BucketsAddFile(inodes, blocks, files, tables, f);
        FilesAdd(files, tables, root, role[ino := NodeOf(f)], image, f);
        inodes := inodes[Hash64(realIno) := [f] + inodes[Hash64(realIno)]];
        files := files + {f};
        role := role[ino := NodeOf(f)];
        file := f;
      }
    }

    /** search_cache_inode: the inode of a host file, if there is one. */
    method SearchCacheInode(realIno: nat) returns (ci: CacheInode?)
      requires Valid()
      ensures ci != null ==> ci in files && ci.realIno == realIno
      ensures ci == null <==> forall f :: f in files ==> f.realIno != realIno
    {
      hide Numbered, Tabled, Filed, Apart, AllSettled, Hash32;
      var chain := inodes[Hash64(realIno)];
      var k := 0;
      while k < |chain| && chain[k].realIno != realIno
        invariant k <= |chain| && forall j :: 0 <= j < k ==> chain[j].realIno != realIno
      {
        k := k + 1;
      }
      ci := if k < |chain| then chain[k] else null;
    }

    /** open_file: `chunks` are what the reads of the host file return. */
    method OpenFile(file: CacheInode, chunks: seq<seq<Byte>>) returns (ok: bool)
      requires Valid() && file in files && forall i :: 0 <= i < |chunks| ==> 0 < |chunks[i]| <= BLKSIZE
      modifies this`nextIno, this`unusedBlocks, this`blocks, this`tables, this`role, this`image, file, file.repr
      ensures ok == (FullBlocks(chunks) && old(file.nblks) + |chunks| <= LN_NBLKS
                     && old(nextIno) + Needed(old(file.nblks), |chunks|) <= ninos)
      ensures ok ==> Valid() && file.contents == old(file.contents) + PaddedAll(chunks)
      ensures ok ==> file.size == old(file.size) + Total(chunks) && file.nlinks == old(file.nlinks)
      ensures ok ==> nextIno == old(nextIno) + Needed(old(file.nblks), |chunks|) && Extends(old(role), role)
      ensures ok ==> tables >= old(tables) && fresh(tables - old(tables))
      ensures ok ==> file.repr <= tables && fresh(file.repr - old(file.repr))
    {
      hide Valid, Padded, NewTables, FullBlocks, PaddedAll;
      var i, last := 0, BLKSIZE;
      KnownCounts(file);
      NoChunks(chunks, file.nblks);
      while i < |chunks|
        invariant i <= |chunks| && Valid() && file in files && files == old(files)
        invariant FullBlocks(chunks[..i]) && last == (if i == 0 then BLKSIZE else |chunks[i - 1]|)
        invariant file.nblks == old(file.nblks) + i <= LN_NBLKS
        invariant nextIno == old(nextIno) + Needed(old(file.nblks), i) <= ninos
        invariant file.contents == old(file.contents) + PaddedAll(chunks[..i])
        invariant file.size == old(file.size) + Total(chunks[..i]) && file.nlinks == old(file.nlinks)
        invariant Extends(old(role), role) && tables >= old(tables) && fresh(tables - old(tables))
        invariant file.repr <= tables && fresh(file.repr - old(file.repr))
      {
        OneChunk(chunks, i, old(file.nblks));
        if last != BLKSIZE {
          return false;
        }
        ok := AppendData(file, chunks[i], |chunks[i]|);
        if !ok {
          return;
        }
        KnownCounts(file);
        last := |chunks[i]|;
        i := i + 1;
      }
      ok := true;
    }

    lemma KnownCounts(file: CacheInode)
      requires Valid() && file in files
      ensures file.nblks == |file.numbers| == |file.contents| <= LN_NBLKS && nextIno <= ninos && file.repr <= tables
    {
      Known(file);
    }

    /** open_link: `target` is what readlink returns; None is its failure. */
    method OpenLink(file: CacheInode, target: Option<seq<Byte>>) returns (ok: bool)
      requires Valid() && file in files && (target.Some? ==> |target.value| <= BLKSIZE)
      modifies this`nextIno, this`unusedBlocks, this`blocks, this`tables, this`role, this`image, file, file.repr
      ensures ok == (target.Some? && |target.value| < BLKSIZE && old(file.nblks) < LN_NBLKS
                     && old(nextIno) + 1 + NewTables(old(file.nblks)) <= ninos)
      ensures ok ==> Valid() && file.contents == old(file.contents) + [Bytes(Padded(target.value))]
      ensures ok ==> file.size == old(file.size) + |target.value| && file.nlinks == old(file.nlinks)
      ensures ok ==> nextIno == old(nextIno) + 1 + NewTables(old(file.nblks)) && Extends(old(role), role)
      ensures ok ==> tables >= old(tables) && fresh(tables - old(tables))
      ensures ok ==> file.repr <= tables && fresh(file.repr - old(file.repr))
    {
      hide Valid, Padded, NewTables;
      if target == None || |target.value| == BLKSIZE {
        return false;
      }
      ok := AppendData(file, target.value, |target.value|);
    }

    // -------------------------------------------------------------- close_sfs

    /** The block of the free map for the numbers from i on: 1 means free, and numbers past the end are not free. */
    method BitmapBlock(i: nat) returns (words: seq<nat>)
      requires Counters() && i < ninos
      ensures forall k :: 0 <= k < BLKBITS ==> (BitOf(words, k) <==> nextIno <= i + k < ninos)
    {
      words := seq(NENTRY, _ => 0);
      forall k
        ensures !BitOf(words, k)
      {
        BlankMap(k);
      }
      if i + BLKBITS > nextIno {
        var start, end := 0, BLKBITS;
        if i < nextIno {
          start := nextIno - i;
        }
        if i + BLKBITS > ninos {
          end := ninos - i;
        }
        var j := start;
        while j < end
          invariant start <= j && (j <= end || start > end) && |words| == NENTRY
          invariant forall k: nat :: BitOf(words, k) <==> start <= k < j
        {
          ghost var before := words;
          words := words[j / WORD := Or(words[j / WORD], Pow2(j % WORD))];
          forall k: nat
            ensures BitOf(words, k) <==> start <= k < j + 1
          {
            SetBit(before, j, k);
          }
          j := j + 1;
        }
      }
    }

    /** The free map and the superblock. */
    method WriteMap()
      requires Valid()
      modifies this`image
      ensures Valid() && MapWritten(image, ninos, nextIno, unusedBlocks)
    {
      hide Buckets, Numbered, Tabled, Filed, Apart, AllSettled, FreeBit;
      var i, ino := 0, BLKN_FREEMAP;
      while i < ninos
        invariant Valid() && i % BLKBITS == 0 && ino == BLKN_FREEMAP + i / BLKBITS && i < ninos + BLKBITS
        invariant forall k :: 0 <= k < i ==> (FreeBit(image, k) <==> nextIno <= k < ninos)
      {
        var words := BitmapBlock(i);
        ghost var before := image;
        MapBlockIsLow(ninos, i);
        WriteLow(ino, FreeMap(words));
        MapExtended(before, i, words, nextIno, ninos);
        assert image == before[BLKN_FREEMAP + i / BLKBITS := FreeMap(words)];
        ino, i := ino + 1, i + BLKBITS;
      }
      ghost var before := image;
      WriteLow(BLKN_SUPER, Super(ninos, unusedBlocks));
      MapDone(before, ninos, nextIno, i, unusedBlocks);
    }

    /** write_block of something below the first number that sfs_alloc_ino hands out. */
    method WriteLow(ino: nat, c: Content)
      requires Valid() && ino < FirstIno(ninos)
      modifies this`image
      ensures Valid() && image == old(image)[ino := c]
    {
      hide Buckets, Tabled, Filed, Apart, AllSettled;
      FilesKeptByWrite(files, tables, root, role, image, ino, c);
      WriteBlock(c, ino);
    }

    /** write_block of an index block or inode. */
    method WriteHigh(ino: nat, c: Content)
      requires Valid() && MapWritten(image, ninos, nextIno, unusedBlocks)
      requires ino == BLKN_ROOT || (ino in role && !role[ino].DataOf?)
      modifies this`image
      ensures Valid() && MapWritten(image, ninos, nextIno, unusedBlocks) && image == old(image)[ino := c]
    {
      hide Buckets, Tabled, Filed, Apart, AllSettled, MapWritten;
      FilesKeptByWrite(files, tables, root, role, image, ino, c);
      MapKept(image, ninos, nextIno, unusedBlocks, ino, c);
      WriteBlock(c, ino);
    }

    method FlushCacheBlock(cb: CacheBlock, ghost doneB: set<CacheBlock>, ghost doneF: set<CacheInode>)
      requires Valid() && MapWritten(image, ninos, nextIno, unusedBlocks) && cb in tables && doneB <= tables
      requires doneF <= files
      requires Flushed(image, doneB, doneF)
      modifies this`image
      ensures Valid() && MapWritten(image, ninos, nextIno, unusedBlocks) && Flushed(image, doneB + {cb}, doneF)
    {
      hide Buckets, Numbered, Filed, Apart, AllSettled, MapWritten;
      Names(files, tables, root, role, image, FirstIno(ninos), nextIno);
      WriteHigh(cb.ino, Index(cb.cache));
    }

    method FlushCacheInode(ci: CacheInode, ghost doneB: set<CacheBlock>, ghost doneF: set<CacheInode>)
      requires Valid() && MapWritten(image, ninos, nextIno, unusedBlocks) && ci in files && doneB <= tables
      requires doneF <= files
      requires Flushed(image, doneB, doneF)
      modifies this`image
      ensures Valid() && MapWritten(image, ninos, nextIno, unusedBlocks) && Flushed(image, doneB, doneF + {ci})
    {
      hide Buckets, Numbered, Filed, Apart, AllSettled, MapWritten;
      Names(files, tables, root, role, image, FirstIno(ninos), nextIno);
      WriteHigh(ci.ino, Node(ci.Record()));
    }

    /** close_sfs: free map and superblock, then every index block and inode of the hash tables. */
    method CloseSfs()
      requires Valid()
      modifies this`image
      ensures Valid() && MapWritten(image, ninos, nextIno, unusedBlocks) && Flushed(image, tables, files)
      ensures MapIs(image, ninos, nextIno)
    {
      hide Numbered, Tabled, Filed, Apart, AllSettled, MapWritten, Flushed, Buckets, MapIs;
      WriteMap();
      var i := 0;
      ghost var doneB: set<CacheBlock>, doneF: set<CacheInode> := {}, {};
      NothingFlushed(image);
      BucketsHold(inodes, blocks, files, tables);
      while i < HASH_LIST_SIZE
        invariant i <= HASH_LIST_SIZE && Valid() && MapWritten(image, ninos, nextIno, unusedBlocks)
        invariant doneB <= tables && doneF <= files && Flushed(image, doneB, doneF)
        invariant forall b, k :: 0 <= b < i && 0 <= k < |blocks[b]| ==> blocks[b][k] in doneB
        invariant forall b, k :: 0 <= b < i && 0 <= k < |inodes[b]| ==> inodes[b][k] in doneF
      {
        var k := 0;
        ghost var start := doneB;
        while k < |blocks[i]|
          invariant k <= |blocks[i]| && Valid() && MapWritten(image, ninos, nextIno, unusedBlocks)
          invariant start <= doneB <= tables && Flushed(image, doneB, doneF)
          invariant forall j :: 0 <= j < k ==> blocks[i][j] in doneB
        {
          FlushCacheBlock(blocks[i][k], doneB, doneF);
          doneB := doneB + {blocks[i][k]};
          k := k + 1;
        }
        k := 0;
        ghost var startF := doneF;
        while k < |inodes[i]|
          invariant k <= |inodes[i]| && Valid() && MapWritten(image, ninos, nextIno, unusedBlocks)
          invariant startF <= doneF <= files && Flushed(image, doneB, doneF)
          invariant forall j :: 0 <= j < k ==> inodes[i][j] in doneF
        {
          FlushCacheInode(inodes[i][k], doneB, doneF);
          doneF := doneF + {inodes[i][k]};
          k := k + 1;
        }
        i := i + 1;
      }
      BucketsCover(inodes, blocks, files, tables, doneB, doneF);
      MapWrittenIs(image, ninos, nextIno, unusedBlocks);
    }

    // -------------------------------------------------------------- reading the image

    /**
     On a finished image, block i of every file is found through its inode and holds what was written; so does the
     kernel find it, and finds it in use, up to the end of the indirect block, behind which the kernel panics.
     */
    lemma ReadsBack(f: CacheInode, i: nat)
      requires Valid() && MapWritten(image, ninos, nextIno, unusedBlocks) && Flushed(image, tables, files)
      requires f in files && i < |f.numbers|
      ensures f.ino in image && image[f.ino] == Node(f.Record()) && f.Record().blocks == |f.numbers| == |f.contents|
      ensures BlockAt(image, f.Record(), i) == Some(f.numbers[i])
      ensures KernelBlockAt(image, f.Record(), i) == if i < L1_NBLKS then Some(f.numbers[i]) else None
      ensures f.numbers[i] in image && image[f.numbers[i]] == f.contents[i]
      ensures 0 < f.numbers[i] < ninos && !FreeBit(image, f.numbers[i])
    {
      hide Buckets, Tabled, Apart, FreeBit, BlockAt, KernelBlockAt, FreeBits, LeafCount, Leaf, Branch, Direct;
      FileIs(files, tables, root, role, image, f);
      assert Stored(f, i, role, image);
      var branch := if f.l2 != null then f.l2.cache else [];
      Numbers(ninos, f.numbers[i]);
      f.IsIndexed(branch);
      f.IsWritten(image, branch, tables);
      IndexReadsBack(image, f.Record(), f.numbers, Inos(f.leaves), Caches(f.leaves), branch, i);
    }

    /** No number serves two purposes: not as data of two blocks, nor as data and index block or inode. */
    lemma NumbersDiffer(f: CacheInode, i: nat, g: CacheInode, j: nat)
      requires Valid() && f in files && i < |f.numbers| && g in files && j < |g.numbers|
      ensures f.numbers[i] == g.numbers[j] <==> f == g && i == j
      ensures f.numbers[i] != g.ino && (f.ino == g.ino <==> f == g)
      ensures forall cb :: cb in tables ==> cb.ino != f.numbers[i] && cb.ino != f.ino
    {
      hide Buckets, Apart, AllSettled, CacheInode.Shape;
      FileIs(files, tables, root, role, image, f);
      FileIs(files, tables, root, role, image, g);
      assert Stored(f, i, role, image) && Stored(g, j, role, image);
    }
  }
}
