/**
 The on-disk layout of the simple file system as lab8/tools/mksfs.c writes it and as
 lab8/kern/fs/sfs reads it: block index, free map, directory entries.
 */
module SfsLayout {
  import opened Words

  const BLKSIZE: nat := 4096
  const BLKBITS: nat := 32768           // bits in a block
  const MAX_NBLKS: nat := 524288
  const NDIRECT: nat := 12
  const NENTRY: nat := 1024             // block numbers in a block
  const L1_NBLKS: nat := 1036
  const LN_NBLKS: nat := 32768          // the largest file, in blocks
  const BLKN_SUPER: nat := 0
  const BLKN_ROOT: nat := 1
  const BLKN_FREEMAP: nat := 2

  datatype Kind = FILE | DIR | LINK

  datatype Inode =
    Inode(kind: Kind, size: nat, nlinks: nat, blocks: nat, direct: seq<nat>, indirect: nat, dbIndirect: nat)

  /** What a block of the image holds. */
  datatype Content =
    | Bytes(data: seq<Byte>)
    | Index(numbers: seq<nat>)
    | Node(inode: Inode)
    | Super(blocks: nat, unused: nat)
    | FreeMap(words: seq<nat>)

  // ---------------------------------------------------------------- the block index

  /** How many blocks of numbers below the inode a file of n blocks needs, besides the double-indirect one. */
  function LeafCount(n: nat): nat {
    if n <= NDIRECT then 0 else (n - NDIRECT + NENTRY - 1) / NENTRY
  }

  lemma LeafStep(n: nat)
    requires n >= NDIRECT
    ensures LeafCount(n + 1) == (n - NDIRECT) / NENTRY + 1
    ensures LeafCount(n) == (n - NDIRECT) / NENTRY + if (n - NDIRECT) % NENTRY == 0 then 0 else 1
    ensures n < L1_NBLKS <==> (n - NDIRECT) / NENTRY == 0
  {
  }

  lemma LastLeaf(n: nat, t: nat) returns (last: nat)
    requires n >= NDIRECT && t == (n - NDIRECT) % NENTRY
    ensures LeafCount(n + 1) == last + 1 && n == NDIRECT + NENTRY * last + t && t < NENTRY
  {
    LeafStep(n);
    last := (n - NDIRECT) / NENTRY;
  }

  lemma DirectKept(direct: seq<nat>, numbers: seq<nat>, x: nat)
    requires Direct(direct, numbers) && |numbers| >= NDIRECT
    ensures Direct(direct, numbers + [x])
  {
  }

  /** Leaf j of the index of a file holds its numbers from NDIRECT + 1024 j on. */
  ghost predicate Leaf(cache: seq<nat>, numbers: seq<nat>, j: nat) {
    && |cache| == NENTRY
    && forall t :: 0 <= t < NENTRY && NDIRECT + NENTRY * j + t < |numbers| ==>
      cache[t] == numbers[NDIRECT + NENTRY * j + t]
  }

  lemma LeafSize(cache: seq<nat>, numbers: seq<nat>, j: nat)
    requires Leaf(cache, numbers, j)
    ensures |cache| == NENTRY
  {
  }

  lemma LeafKept(cache: seq<nat>, numbers: seq<nat>, j: nat, x: nat)
    requires Leaf(cache, numbers, j) && NDIRECT + NENTRY * (j + 1) <= |numbers|
    ensures Leaf(cache, numbers + [x], j)
  {
  }

  lemma LeafExtended(cache: seq<nat>, numbers: seq<nat>, j: nat, t: nat, x: nat)
    requires Leaf(cache, numbers, j) && t < NENTRY && |numbers| == NDIRECT + NENTRY * j + t
    ensures Leaf(cache[t := x], numbers + [x], j)
  {
  }

  lemma BlankLeaf(numbers: seq<nat>, j: nat)
    requires |numbers| <= NDIRECT + NENTRY * j
    ensures Leaf(seq(NENTRY, _ => 0), numbers, j)
  {
  }

  ghost predicate Direct(direct: seq<nat>, numbers: seq<nat>) {
    |direct| == NDIRECT && forall i :: 0 <= i < NDIRECT && i < |numbers| ==> direct[i] == numbers[i]
  }

  /** The double-indirect block names the leaves from the second on; leaf 0 is the indirect block. */
  ghost predicate Branch(cache: seq<nat>, leaves: seq<nat>) {
    && |cache| == NENTRY
    && forall j :: 0 <= j < NENTRY ==> cache[j] == if j + 1 < |leaves| then leaves[j + 1] else 0
  }

  lemma BranchAt(cache: seq<nat>, leaves: seq<nat>, k: nat)
    requires Branch(cache, leaves) && k < NENTRY
    ensures |cache| == NENTRY && cache[k] == if k + 1 < |leaves| then leaves[k + 1] else 0
  {
  }

  lemma BranchExtended(cache: seq<nat>, leaves: seq<nat>, k: nat, n: nat)
    requires Branch(cache, leaves) && k < NENTRY && |leaves| == k + 1
    ensures Branch(cache[k := n], leaves + [n])
  {
  }

  /** Block i of a file, through the image. */
  function BlockAt(image: map<nat, Content>, node: Inode, i: nat): Option<nat> {
    if i < NDIRECT then Number(node.direct, i)
    else if i < L1_NBLKS then IndexAt(image, node.indirect, i - NDIRECT)
    else match IndexAt(image, node.dbIndirect, (i - L1_NBLKS) / NENTRY)
      case None => None
      case Some(leaf) => IndexAt(image, leaf, (i - L1_NBLKS) % NENTRY)
  }

  function Number(numbers: seq<nat>, i: nat): Option<nat> {
    if i < |numbers| then Some(numbers[i]) else None
  }

  function IndexAt(image: map<nat, Content>, ino: nat, i: nat): Option<nat> {
    if ino in image && image[ino].Index? then Number(image[ino].numbers, i) else None
  }

  /**
   The kernel's sfs_bmap_get_nolock without `create`; None is its panic, which takes every index beyond the
   indirect block.
   */
  function KernelBlockAt(image: map<nat, Content>, node: Inode, i: nat): Option<nat> {
    if i < NDIRECT then Number(node.direct, i)
    else if i - NDIRECT < NENTRY then IndexAt(image, node.indirect, i - NDIRECT)
    else None
  }

  /** The index in memory: the inode's part, the leaves' numbers and contents, and the double-indirect block. */
  ghost predicate Indexed(node: Inode, numbers: seq<nat>, leaves: seq<nat>, caches: seq<seq<nat>>, branch: seq<nat>) {
    && Direct(node.direct, numbers) && |numbers| <= LN_NBLKS
    && |leaves| == |caches| >= LeafCount(|numbers|)
    && (forall j :: 0 <= j < |leaves| ==> Leaf(caches[j], numbers, j))
    && (|leaves| > 0 ==> node.indirect == leaves[0])
    && (|leaves| > 1 ==> Branch(branch, leaves))
  }

  ghost predicate Written(image: map<nat, Content>, node: Inode, leaves: seq<nat>, caches: seq<seq<nat>>,
      branch: seq<nat>)
    requires |leaves| == |caches|
  {
    && (forall j :: 0 <= j < |leaves| ==> leaves[j] in image && image[leaves[j]] == Index(caches[j]))
    && (|leaves| > 1 ==> node.dbIndirect in image && image[node.dbIndirect] == Index(branch))
  }

  /**
   Reading through the three levels gives the numbers back; the kernel's reader agrees up to the end of the
   indirect block, and panics behind it.
   */
  lemma IndexReadsBack(image: map<nat, Content>, node: Inode, numbers: seq<nat>, leaves: seq<nat>,
      caches: seq<seq<nat>>, branch: seq<nat>, i: nat)
    requires Indexed(node, numbers, leaves, caches, branch) && Written(image, node, leaves, caches, branch)
    requires i < |numbers|
    ensures BlockAt(image, node, i) == Some(numbers[i])
    ensures KernelBlockAt(image, node, i) == if i < L1_NBLKS then Some(numbers[i]) else None
  {
    if i >= NDIRECT {
      var j, t := (i - NDIRECT) / NENTRY, (i - NDIRECT) % NENTRY;
      assert i == NDIRECT + NENTRY * j + t;
      LeafPlace(|numbers|, i);
      assert Leaf(caches[j], numbers, j);
    }
  }

  lemma LeafPlace(n: nat, i: nat)
    requires NDIRECT <= i < n <= LN_NBLKS
    ensures var j := (i - NDIRECT) / NENTRY; j < LeafCount(n) && j <= NENTRY
    ensures i >= L1_NBLKS ==> (i - L1_NBLKS) / NENTRY + 1 == (i - NDIRECT) / NENTRY
    ensures i >= L1_NBLKS ==> (i - L1_NBLKS) % NENTRY == (i - NDIRECT) % NENTRY
  {
  }

  // ---------------------------------------------------------------- the free map

  const WORD: nat := 32

  predicate BitOf(words: seq<nat>, k: nat) {
    k / WORD < |words| && Bit(words[k / WORD], k % WORD)
  }

  /** Bit k of the free map, wherever it starts: the kernel's bitmap_test. */
  predicate FreeBit(image: map<nat, Content>, k: nat) {
    var b := BLKN_FREEMAP + k / BLKBITS;
    b in image && image[b].FreeMap? && BitOf(image[b].words, k % BLKBITS)
  }

  /** The same bit by its place: 32768 in a block, 32 in a word, the lowest first. */
  ghost predicate MapBit(image: map<nat, Content>, k: nat) {
    && 2 + k / 32768 in image && image[2 + k / 32768].FreeMap?
    && k % 32768 / 32 < |image[2 + k / 32768].words|
    && image[2 + k / 32768].words[k % 32768 / 32] / Pow2(k % 32) % 2 == 1
  }

  lemma FreeBitIs(image: map<nat, Content>, k: nat)
    ensures FreeBit(image, k) <==> MapBit(image, k)
  {
    hide Bit, Pow2;
    assert k % 32768 % 32 == k % 32;
    var b := 2 + k / 32768;
    if b in image && image[b].FreeMap? && k % 32768 / 32 < |image[b].words| {
      BitIs(image[b].words[k % 32768 / 32], k % 32);
    }
  }

  /** Setting bit j: `data[j / 32] |= 1 << (j % 32)`. */
  lemma SetBit(words: seq<nat>, j: nat, k: nat)
    requires j / WORD < |words|
    ensures BitOf(words[j / WORD := Or(words[j / WORD], Pow2(j % WORD))], k) <==> k == j || BitOf(words, k)
  {
    Euclid(j, WORD);
    Euclid(k, WORD);
    OrBit(words[j / WORD], Pow2(j % WORD), k % WORD);
    Pow2Bit(j % WORD, k % WORD);
  }

  lemma BlankMap(k: nat)
    ensures !BitOf(seq(NENTRY, _ => 0), k)
  {
    NoBit(k % WORD);
  }

  /** How many of the first n bits are set: the kernel's count when it mounts the file system. */
  function FreeBits(image: map<nat, Content>, n: nat): nat {
    if n == 0 then 0 else FreeBits(image, n - 1) + if FreeBit(image, n - 1) then 1 else 0
  }

  /** If the set bits below n are those from `low` up to `high`, there are high - low of them. */
  lemma {:induction false} FreeBitsCount(image: map<nat, Content>, n: nat, low: nat, high: nat)
    requires low <= high && forall k :: 0 <= k < n ==> (FreeBit(image, k) <==> low <= k < high)
    ensures FreeBits(image, n) == if n <= low then 0 else if n <= high then n - low else high - low
  {
    if n > 0 {
      FreeBitsCount(image, n - 1, low, high);
      assert FreeBit(image, n - 1) <==> low <= n - 1 < high;
    }
  }

  // ---------------------------------------------------------------- file data and directory entries

  const FNAME_SIZE: nat := 256          // SFS_MAX_FNAME_LEN + 1

  function Zeros(n: nat): (r: seq<Byte>)
    ensures |r| == n
  {
    seq(n, _ => 0 as Byte)
  }

  /** write_block fills short data up to a block. */
  function Padded(data: seq<Byte>): (r: seq<Byte>)
    requires |data| <= BLKSIZE
    ensures |r| == BLKSIZE
  {
    data + Zeros(BLKSIZE - |data|)
  }

  lemma PaddedIs(data: seq<Byte>)
    requires |data| <= 4096
    ensures |Padded(data)| == 4096 && Padded(data)[..|data|] == data
    ensures forall k :: |data| <= k < 4096 ==> Padded(data)[k] == 0
  {
  }

  function Le32(n: nat): (r: seq<Byte>)
    ensures |r| == 4
  {
    [Low(n), Low(n / 0x100), Low(n / 0x1_0000), Low(n / 0x100_0000)]
  }

  function FromLe32(bytes: seq<Byte>): nat
    requires |bytes| >= 4
  {
    var a: nat, b: nat, c: nat, d: nat := bytes[0], bytes[1], bytes[2], bytes[3];
    a + 0x100 * b + 0x1_0000 * c + 0x100_0000 * d
  }

  /** strcpy into a name field, whose bytes behind the terminator stay what they were. */
  function NameField(name: seq<Byte>, stale: seq<Byte>): (r: seq<Byte>)
    requires |name| < FNAME_SIZE == |stale|
    ensures |r| == FNAME_SIZE
  {
    name + [0] + stale[|name| + 1..]
  }

  /**
   The first sizeof(entry->name) bytes of the entry are written: its number, and all of the name but the last
   four bytes.
   */
  function EntryBlock(ino: nat, field: seq<Byte>): (r: seq<Byte>)
    requires |field| == FNAME_SIZE
    ensures |r| == BLKSIZE
  {
    Padded((Le32(ino) + field)[..FNAME_SIZE])
  }

  lemma EntryPadded(ino: nat, field: seq<Byte>)
    requires |field| == FNAME_SIZE
    ensures |Le32(ino) + field| >= FNAME_SIZE && Padded((Le32(ino) + field)[..FNAME_SIZE]) == EntryBlock(ino, field)
  {
  }

  /** The string that starts here and ends before the first zero. */
  function CString(bytes: seq<Byte>): seq<Byte> {
    if bytes == [] || bytes[0] == 0 then [] else [bytes[0]] + CString(bytes[1..])
  }

  lemma {:induction false} CStringIs(bytes: seq<Byte>, n: nat)
    requires n < |bytes| && bytes[n] == 0 && forall i :: 0 <= i < n ==> bytes[i] != 0
    ensures CString(bytes) == bytes[..n]
  {
    if n > 0 {
      CStringIs(bytes[1..], n - 1);
      assert bytes[..n] == [bytes[0]] + bytes[1..][..n - 1];
    }
  }

  /** The kernel's sfs_dirent_read_nolock: a whole entry, its name cut off at the last byte. */
  function EntryIno(block: seq<Byte>): nat
    requires |block| == BLKSIZE
  {
    FromLe32(block[..4])
  }

  function EntryName(block: seq<Byte>): seq<Byte>
    requires |block| == BLKSIZE
  {
    CString(block[4..4 + FNAME_SIZE][FNAME_SIZE - 1 := 0])
  }

  lemma Le32ReadsBack(n: nat)
    requires n < 0x1_0000_0000
    ensures FromLe32(Le32(n)) == n
    ensures Le32(n)[0] == n % 0x100 && Le32(n)[1] == n / 0x100 % 0x100
    ensures Le32(n)[2] == n / 0x1_0000 % 0x100 && Le32(n)[3] == n / 0x100_0000
  {
    var h, w := n / 0x100, n / 0x1_0000;
    Euclid(n, 0x100);
    Euclid(h, 0x100);
    Euclid(w, 0x100);
    assert w == h / 0x100 && n / 0x100_0000 == w / 0x100 < 0x100;
  }

  /** The kernel finds the number of every entry, and its name up to 252 characters; longer names lose their tail. */
  lemma EntryReadsBack(ino: nat, name: seq<Byte>, stale: seq<Byte>)
    requires |name| < FNAME_SIZE == |stale| && ino < 0x1_0000_0000 && forall i :: 0 <= i < |name| ==> name[i] != 0
    ensures var block := EntryBlock(ino, NameField(name, stale));
      && EntryIno(block) == ino
      && EntryName(block) == (if |name| <= 252 then name else name[..252])
      && (EntryName(block) == name <==> |name| <= 252)
      && block[..4] == Le32(ino) && (forall i :: 0 <= i < |name| && i < 252 ==> block[4 + i] == name[i])
      && (|name| < 252 ==> block[4 + |name|] == 0) && forall i :: 256 <= i < 4096 ==> block[i] == 0
  {
    var field := NameField(name, stale);
    var block := EntryBlock(ino, field);
    assert block[..4] == Le32(ino);
    Le32ReadsBack(ino);
    var seen := block[4..4 + FNAME_SIZE][FNAME_SIZE - 1 := 0];
    var n := if |name| <= 252 then |name| else 252;
    assert forall i :: 0 <= i < 252 ==> seen[i] == field[i];
    assert forall i :: 252 <= i < FNAME_SIZE ==> seen[i] == 0;
    assert forall i :: 0 <= i < |name| ==> field[i] == name[i];
    CStringIs(seen, n);
    assert seen[..n] == name[..n];
    assert name[..|name|] == name;
  }
}
