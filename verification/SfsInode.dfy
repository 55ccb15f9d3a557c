/**
 The cached inodes and index blocks of lab8/tools/mksfs.c.  An inode reaches its blocks through
 `direct`, through one block of numbers (`indirect`), and through a block of blocks of numbers
 (`dbIndirect`); `l1` and `l2` cache the two index blocks used last.
 */
module SfsInode {
  import opened SfsLayout

  class CacheBlock {
    const ino: nat
    var cache: seq<nat>

    constructor (ino: nat)
      ensures this.ino == ino && cache == seq(NENTRY, _ => 0)
    {
      this.ino := ino;
      cache := seq(NENTRY, _ => 0);
    }
  }

  ghost function Inos(leaves: seq<CacheBlock>): (r: seq<nat>)
    ensures |r| == |leaves| && forall j :: 0 <= j < |leaves| ==> r[j] == leaves[j].ino
  {
    seq(|leaves|, j requires 0 <= j < |leaves| => leaves[j].ino)
  }

  ghost function Caches(leaves: seq<CacheBlock>): (r: seq<seq<nat>>)
    reads leaves
    ensures |r| == |leaves| && forall j :: 0 <= j < |leaves| ==> r[j] == leaves[j].cache
  {
    if leaves == [] then [] else Caches(leaves[..|leaves| - 1]) + [leaves[|leaves| - 1].cache]
  }

  ghost predicate Distinct(leaves: seq<CacheBlock>) {
    forall j, k :: 0 <= j < k < |leaves| ==> leaves[j] != leaves[k]
  }

  lemma DistinctAdd(leaves: seq<CacheBlock>, cb: CacheBlock)
    requires Distinct(leaves) && cb !in leaves
    ensures Distinct(leaves + [cb])
  {
  }

  /** `l1` is the last leaf and `l2` the double-indirect block; all index blocks differ and make up `repr`. */
  ghost predicate Wired(leaves: seq<CacheBlock>, repr: set<CacheBlock>, l1: CacheBlock?, l2: CacheBlock?, indirect: nat,
      dbIndirect: nat) {
    && (forall j :: 0 <= j < |leaves| ==> leaves[j] in repr && leaves[j].ino > 0)
    && Distinct(leaves)
    && (forall cb :: cb in repr ==> cb in leaves || cb == l2)
    && (if |leaves| == 0 then l1 == null && indirect == 0 else l1 == leaves[|leaves| - 1] && indirect == leaves[0].ino)
    && (if l2 == null then |leaves| <= 1 && dbIndirect == 0
        else l2 in repr && l2 !in leaves && l2.ino > 0 && dbIndirect == l2.ino && |leaves| >= 1)
    && |leaves| <= 1 + NENTRY
  }

  lemma WiredLeaf(leaves: seq<CacheBlock>, repr: set<CacheBlock>, l1: CacheBlock?, l2: CacheBlock, indirect: nat,
      dbIndirect: nat, cb: CacheBlock)
    requires Wired(leaves, repr, l1, l2, indirect, dbIndirect) && cb !in repr && cb.ino > 0 && |leaves| <= NENTRY
    ensures Wired(leaves + [cb], repr + {cb}, cb, l2, indirect, dbIndirect)
  {
    hide Distinct;
    DistinctAdd(leaves, cb);
  }

  lemma WiredBranch(leaves: seq<CacheBlock>, repr: set<CacheBlock>, l1: CacheBlock?, indirect: nat, cb: CacheBlock)
    requires Wired(leaves, repr, l1, null, indirect, 0) && cb !in repr && cb.ino > 0 && |leaves| == 1
    ensures Wired(leaves, repr + {cb}, l1, cb, indirect, cb.ino)
  {
  }

  /** What the pointers say about the blocks. */
  lemma WiredBlocks(leaves: seq<CacheBlock>, repr: set<CacheBlock>, l1: CacheBlock?, l2: CacheBlock?, indirect: nat,
      dbIndirect: nat)
    requires Wired(leaves, repr, l1, l2, indirect, dbIndirect)
    ensures forall j :: 0 <= j < |leaves| ==> leaves[j] in repr && leaves[j].ino > 0 && leaves[j] != l2
    ensures l2 != null ==> l2 in repr && dbIndirect == l2.ino > 0 && |leaves| >= 1
    ensures l2 == null ==> |leaves| <= 1 && dbIndirect == 0
    ensures |leaves| > 0 ==> l1 == leaves[|leaves| - 1] && indirect == leaves[0].ino
    ensures |leaves| == 0 ==> l1 == null && indirect == 0
  {
  }

  class CacheInode {
    const realIno: nat
    const ino: nat
    const kind: Kind
    var size: nat
    var nlinks: nat
    var blocks: nat
    var nblks: nat
    var direct: seq<nat>
    var indirect: nat
    var dbIndirect: nat
    var l1: CacheBlock?
    var l2: CacheBlock?
    /** The blocks appended so far, what they hold, the leaves of the index in order, and all blocks of the index. */
    ghost var numbers: seq<nat>
    ghost var contents: seq<Content>
    ghost var leaves: seq<CacheBlock>
    ghost var repr: set<CacheBlock>

    constructor (realIno: nat, ino: nat, kind: Kind)
      ensures this.realIno == realIno && this.ino == ino && this.kind == kind
      ensures nlinks == size == nblks == 0 && numbers == [] && contents == [] && repr == {}
      ensures Shape() && Settled()
    {
      this.realIno, this.ino, this.kind := realIno, ino, kind;
      size, nlinks, blocks, nblks := 0, 0, 0, 0;
      direct, indirect, dbIndirect := seq(NDIRECT, _ => 0), 0, 0;
      l1, l2 := null, null;
      numbers, contents, leaves, repr := [], [], [], {};
    }

    function Record(): Inode
      reads this
    {
      Inode(kind, size, nlinks, blocks, direct, indirect, dbIndirect)
    }

    /** `l1` is the last leaf and `l2` the double-indirect block; all index blocks differ. */
    ghost predicate Pointers()
      reads this
    {
      Wired(leaves, repr, l1, l2, indirect, dbIndirect)
    }

    /** The index holds the numbers appended so far. */
    ghost predicate Holds()
      reads this, repr
      requires Pointers()
    {
      && Direct(direct, numbers)
      && (forall j :: 0 <= j < |leaves| ==> Leaf(leaves[j].cache, numbers, j))
      && (l2 != null ==> Branch(l2.cache, Inos(leaves)))
    }

    ghost predicate Shape()
      reads this, repr
    {
      && Pointers() && Holds()
      && nblks == blocks == |numbers| == |contents| <= LN_NBLKS
      && LeafCount(nblks) <= |leaves|
    }

    /** No index block is there before it is needed. */
    ghost predicate Settled()
      reads this
    {
      |leaves| == LeafCount(nblks) && (l2 != null <==> |leaves| > 1)
    }

    // -------------------------------------------------------------- the assignments of append_block

    /** `inode->direct[nblks] = ino` */
    method PlaceDirect(x: nat, bytes: nat, ghost c: Content)
      requires Shape() && Settled() && nblks < NDIRECT
      modifies this
      ensures Shape() && Settled() && repr == old(repr) && nlinks == old(nlinks)
      ensures numbers == old(numbers) + [x] && contents == old(contents) + [c] && size == old(size) + bytes
    {
      direct := direct[nblks := x];
      Count(x, bytes, c);
    }

    method Count(x: nat, bytes: nat, ghost c: Content)
      modifies this`nblks, this`blocks, this`size, this`numbers, this`contents
      ensures nblks == old(nblks) + 1 && blocks == old(blocks) + 1 && size == old(size) + bytes
      ensures numbers == old(numbers) + [x] && contents == old(contents) + [c]
    {
      nblks, size, blocks := nblks + 1, size + bytes, blocks + 1;
      numbers, contents := numbers + [x], contents + [c];
    }

    /** `data[t] = ino` in the leaf that `l1` caches */
    method PlaceLeaf(t: nat, x: nat, bytes: nat, ghost c: Content)
      requires Shape() && NDIRECT <= nblks < LN_NBLKS && t == (nblks - NDIRECT) % NENTRY
      requires |leaves| == LeafCount(nblks + 1) && (l2 != null <==> |leaves| > 1)
      modifies this, l1
      ensures Shape() && Settled() && repr == old(repr) && nlinks == old(nlinks)
      ensures numbers == old(numbers) + [x] && contents == old(contents) + [c] && size == old(size) + bytes
    {
      hide LeafCount, Leaf, Branch, Direct;
      ghost var last: nat := LastLeaf(nblks, t);
      ghost var more := numbers + [x];
      assert Direct(direct, more) by {
        DirectKept(direct, numbers, x);
      }
      LeafSize(l1.cache, numbers, last);
      l1.cache := l1.cache[t := x];
      forall j | 0 <= j < |leaves|
        ensures Leaf(leaves[j].cache, more, j)
      {
        assert Leaf(old(leaves[j].cache), numbers, j);
        if j == last {
          LeafExtended(old(leaves[j].cache), numbers, j, t, x);
        } else {
          LeafKept(leaves[j].cache, numbers, j, x);
        }
      }
      Count(x, bytes, c);
    }

    /** A block just allocated, which is no part of this index yet. */
    ghost predicate Blank(cb: CacheBlock, n: nat)
      reads this, cb
    {
      cb !in repr && cb.ino == n > 0 && cb.cache == seq(NENTRY, _ => 0)
    }

    /** What update_cache leaves in `l1` and `indirect`: the first leaf, or what was there. */
    method SetIndirect(cb: CacheBlock, n: nat)
      requires Shape() && Settled() && NDIRECT <= nblks < L1_NBLKS
      requires if indirect == 0 then Blank(cb, n) else cb == l1 && n == indirect
      modifies this`l1, this`indirect, this`leaves, this`repr
      ensures Shape() && |leaves| == LeafCount(nblks + 1) && l2 == null
      ensures repr == if old(indirect) == 0 then old(repr) + {cb} else old(repr)
    {
      LeafStep(nblks);
      if indirect == 0 {
        leaves, repr := [cb], repr + {cb};
      }
      l1, indirect := cb, n;
    }

    /**
     What it leaves in `l2` and `db_indirect`: the double-indirect block, when the first leaf is full, or what
     was there.
     */
    method SetBranch(cb: CacheBlock, n: nat)
      requires Shape() && Settled() && L1_NBLKS <= nblks
      requires if dbIndirect == 0 then Blank(cb, n) else cb == l2 && n == dbIndirect
      modifies this`l2, this`dbIndirect, this`repr
      ensures Shape() && l2 == cb
      ensures repr == if old(dbIndirect) == 0 then old(repr) + {cb} else old(repr)
    {
      hide Wired, Leaf, Direct;
      LeafStep(nblks);
      WiredBlocks(leaves, repr, l1, l2, indirect, dbIndirect);
      if dbIndirect == 0 {
        WiredBranch(leaves, repr, l1, indirect, cb);
        repr := repr + {cb};
      }
      l2, dbIndirect := cb, n;
    }

    /** What it leaves in `l1` and `data2[k]`: a further leaf, or what was there. */
    method SetLeaf(k: nat, cb: CacheBlock, n: nat)
      requires Shape() && l2 != null && k + 1 == (nblks - NDIRECT) / NENTRY && k < NENTRY
      requires |leaves| == LeafCount(nblks)
      requires if l2.cache[k] == 0 then Blank(cb, n) else cb == l1 && n == l2.cache[k]
      modifies this`l1, this`leaves, this`repr, l2
      ensures Shape() && |leaves| == LeafCount(nblks + 1) && l2 == old(l2)
      ensures repr == if old(l2.cache[k]) == 0 then old(repr) + {cb} else old(repr)
    {
      hide LeafCount, Leaf, Direct, Branch, Wired;
      LeafStep(nblks);
      WiredBlocks(leaves, repr, l1, l2, indirect, dbIndirect);
      BranchAt(l2.cache, Inos(leaves), k);
      ghost var more := if l2.cache[k] == 0 then [cb] else [];
      if l2.cache[k] == 0 {
        ghost var last := LastLeaf(nblks, (nblks - NDIRECT) % NENTRY);
        BlankLeaf(numbers, k + 1);
        WiredLeaf(leaves, repr, l1, l2, indirect, dbIndirect, cb);
        BranchExtended(l2.cache, Inos(leaves), k, n);
        assert Inos(leaves + [cb]) == Inos(leaves) + [n];
      } else {
        assert l2.cache[k := n] == l2.cache && leaves + [] == leaves;
      }
      l2.cache := l2.cache[k := n];
      l1 := cb;
      leaves, repr := leaves + more, if more != [] then repr + {cb} else repr;
    }

    /** Index blocks belong to the inode. */
    lemma Owns()
      requires Shape()
      ensures l1 != null ==> l1 in repr
      ensures l2 != null ==> l2 in repr
      ensures indirect == 0 <==> leaves == []
      ensures dbIndirect == 0 <==> l2 == null
      ensures |leaves| > 0 ==> l1 == leaves[|leaves| - 1] && indirect == leaves[0].ino
      ensures l2 != null ==> dbIndirect == l2.ino
    {
    }

    /** Entry k of the double-indirect block, when leaf k + 1 is the last or the next. */
    lemma BranchEntry(k: nat)
      requires Shape() && l2 != null && k < NENTRY && k + 1 <= |leaves| <= k + 2
      ensures k < |l2.cache|
      ensures if |leaves| == k + 1 then l2.cache[k] == 0 else l2.cache[k] > 0 && l1 != null && l2.cache[k] == l1.ino
    {
      BranchAt(l2.cache, Inos(leaves), k);
    }

    /** `file->inode.nlinks ++`, in 16 bits */
    method AddLink()
      requires Shape()
      modifies this`nlinks
      ensures Shape() && nlinks == (old(nlinks) + 1) % 0x1_0000
    {
      nlinks := (nlinks + 1) % 0x1_0000;
    }

    lemma IsIndexed(branch: seq<nat>)
      requires Shape() && Settled() && branch == if l2 != null then l2.cache else []
      ensures Indexed(Record(), numbers, Inos(leaves), Caches(leaves), branch)
    {
      hide Leaf, Direct, Branch, LeafCount, Distinct;
    }

    /** Once the image holds the index blocks, the index can be followed there. */
    lemma IsWritten(image: map<nat, Content>, branch: seq<nat>, tables: set<CacheBlock>)
      requires Shape() && Settled() && branch == (if l2 != null then l2.cache else []) && repr <= tables
      requires forall cb :: cb in tables ==> cb.ino in image && image[cb.ino] == Index(cb.cache)
      ensures Written(image, Record(), Inos(leaves), Caches(leaves), branch)
    {
      hide Leaf, Direct, Branch, LeafCount, Distinct;
    }
  }
}
