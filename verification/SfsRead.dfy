/**
 How the kernel reads a file (sfs_io_nolock in lab8/kern/fs/sfs/sfs_inode.c), and that on an image made by
 lab8/tools/mksfs.c it reads the host's bytes.
 */
module SfsRead {
  import opened Words
  import opened SfsLayout
  import opened SfsInode
  import opened Mksfs
  import opened HostTree
  import opened MksfsTree
  import opened SfsLookup

  const MAX_FILE_SIZE: nat := 0x800_0000

  /** Bytes read, -E_INVAL, or a panic. */
  datatype Outcome = Data(bytes: seq<Byte>) | Invalid | Panic

  // ---------------------------------------------------------------- the bytes of a file

  /** What the chunks are chunks of. */
  ghost function Join(chunks: seq<seq<Byte>>): seq<Byte> {
    if chunks == [] then [] else Join(chunks[..|chunks| - 1]) + chunks[|chunks| - 1]
  }

  lemma {:induction false} JoinTotal(chunks: seq<seq<Byte>>)
    requires Chunks(chunks)
    ensures |Join(chunks)| == Total(chunks) <= |chunks| * BLKSIZE
    ensures FullBlocks(chunks) && chunks != [] ==> Total(chunks) > (|chunks| - 1) * BLKSIZE
  {
    if chunks != [] {
      var init := chunks[..|chunks| - 1];
      JoinTotal(init);
      if FullBlocks(chunks) && init != [] {
        assert init[|init| - 1] == chunks[|chunks| - 2];
        JoinFull(init);
      }
    }
  }

  /** Full blocks add up. */
  lemma {:induction false} JoinFull(chunks: seq<seq<Byte>>)
    requires forall i :: 0 <= i < |chunks| ==> |chunks[i]| == BLKSIZE
    ensures |Join(chunks)| == Total(chunks) == |chunks| * BLKSIZE
  {
    if chunks != [] {
      JoinFull(chunks[..|chunks| - 1]);
    }
  }

  /** Block i of a file holds its bytes from 4096 * i on. */
  lemma {:induction false} Piece(chunks: seq<seq<Byte>>, i: nat, lo: nat, hi: nat)
    requires Chunks(chunks) && FullBlocks(chunks) && i < |chunks| && lo <= hi <= BLKSIZE
    requires i * BLKSIZE + hi <= |Join(chunks)|
    ensures Padded(chunks[i])[lo..hi] == Join(chunks)[i * BLKSIZE + lo..i * BLKSIZE + hi]
  {
    var init := chunks[..|chunks| - 1];
    JoinFull(init);
    if i == |init| {
      assert hi <= |chunks[i]|;
    } else {
      assert chunks[i] == init[i];
      assert i * BLKSIZE + hi <= |init| * BLKSIZE by {
        assert (i + 1) * BLKSIZE <= |init| * BLKSIZE;
      }
      Piece(init, i, lo, hi);
    }
  }

  // ---------------------------------------------------------------- sfs_io_nolock for reading

  /** Block i, as sfs_bmap_load_nolock finds it. */
  function LoadBlock(image: map<nat, Content>, node: Inode, i: nat): (r: Option<seq<Byte>>)
    ensures r.Some? ==> |r.value| == BLKSIZE
  {
    if i >= node.blocks then None
    else match KernelBlockAt(image, node, i)
      case None => None
      case Some(n) =>
        if !InUse(image, n) || n !in image || !image[n].Bytes? || |image[n].data| != BLKSIZE then None
        else Some(image[n].data)
  }

  /** What a read of `len` bytes at `offset` should give: the file's bytes there, as many as there are. */
  ghost function Expected(bytes: seq<Byte>, offset: nat, len: nat): Outcome {
    var end := if offset + len > |bytes| then |bytes| else offset + len;
    if offset >= 0x800_0000 then Invalid
    else if offset >= end then Data([])
    else if end > 1036 * 4096 then Panic
    else Data(bytes[offset..end])
  }

  /**
   sfs_io_nolock without `write`.  Of a file with the host's bytes it reads those asked for, as many as there are; it
   panics if that takes it behind block 1035.
   */
  method Read(image: map<nat, Content>, node: Inode, offset: nat, len: nat, ghost chunks: seq<seq<Byte>>)
    returns (r: Outcome)
    ensures ReadsFile(image, node, chunks) ==> r == Expected(Join(chunks), offset, len)
  {
    hide ReadsFile;
    if ReadsFile(image, node, chunks) {
      FileIs(image, node, chunks);
    }
    if node.kind == DIR {
      return Panic;
    }
    var endpos := offset + len;
    if offset >= MAX_FILE_SIZE {
      return Invalid;
    }
    if offset == endpos {
      return Data([]);
    }
    if endpos > MAX_FILE_SIZE {
      endpos := MAX_FILE_SIZE;
    }
    if offset >= node.size {
      return Data([]);
    }
    if endpos > node.size {
      endpos := node.size;
    }
    r := Transfer(image, node, offset, endpos, chunks);
  }

  /** The bytes from `offset` to `endpos`: a partial block first, then whole blocks, then a partial one. */
  method Transfer(image: map<nat, Content>, node: Inode, offset: nat, endpos: nat, ghost chunks: seq<seq<Byte>>)
    returns (r: Outcome)
    requires offset < endpos <= node.size
    ensures ReadsFile(image, node, chunks) ==>
      |Join(chunks)| == node.size
      && r == if endpos > L1_NBLKS * BLKSIZE then Panic else Data(Join(chunks)[offset..endpos])
  {
    hide Got, ReadsFile, LoadBlock, Join;
    var blkno, nblks := offset / BLKSIZE, endpos / BLKSIZE - offset / BLKSIZE;
    var at, bytes := offset, [];
    var blkoff := offset % BLKSIZE;
    GotNothing(image, node, chunks, offset);
    if blkoff != 0 {
      var size := if nblks != 0 then BLKSIZE - blkoff else endpos - offset;
      var block := LoadBlock(image, node, blkno);
      GotMore(image, node, chunks, offset, at, bytes, blkno, blkoff, blkoff + size);
      if block == None {
        return Panic;
      }
      bytes := bytes + block.value[blkoff..blkoff + size];
      at, blkno := at + size, blkno + 1;
      if nblks != 0 {
        nblks := nblks - 1;
      }
    }
    while nblks != 0
      invariant offset <= at <= endpos && Got(image, node, chunks, offset, at, bytes)
      invariant (at == blkno * BLKSIZE && nblks == endpos / BLKSIZE - blkno) || (nblks == 0 && at == endpos)
      decreases nblks
    {
      var block := LoadBlock(image, node, blkno);
      GotMore(image, node, chunks, offset, at, bytes, blkno, 0, BLKSIZE);
      if block == None {
        return Panic;
      }
      bytes := bytes + block.value[0..BLKSIZE];
      at, blkno, nblks := at + BLKSIZE, blkno + 1, nblks - 1;
    }
    if at < endpos {
      var size := endpos - at;
      var block := LoadBlock(image, node, blkno);
      GotMore(image, node, chunks, offset, at, bytes, blkno, 0, size);
      if block == None {
        return Panic;
      }
      bytes := bytes + block.value[0..size];
    }
    GotAll(image, node, chunks, offset, endpos, bytes);
    return Data(bytes);
  }

  /** The transfer has got as far as `at`, and not out of the kernel's reach. */
  ghost predicate Got(image: map<nat, Content>, node: Inode, chunks: seq<seq<Byte>>, offset: nat, at: nat,
      bytes: seq<Byte>) {
    ReadsFile(image, node, chunks) ==>
      && |Join(chunks)| == node.size && offset <= at <= node.size && bytes == Join(chunks)[offset..at]
      && (at == offset || at <= L1_NBLKS * BLKSIZE)
  }

  lemma GotNothing(image: map<nat, Content>, node: Inode, chunks: seq<seq<Byte>>, offset: nat)
    requires offset <= node.size
    ensures Got(image, node, chunks, offset, offset, [])
  {
    hide ReadsFile, Join;
    if ReadsFile(image, node, chunks) {
      FileIs(image, node, chunks);
    }
  }

  lemma GotMore(image: map<nat, Content>, node: Inode, chunks: seq<seq<Byte>>, offset: nat, at: nat, bytes: seq<Byte>,
      i: nat, lo: nat, hi: nat)
    requires Got(image, node, chunks, offset, at, bytes) && at == i * BLKSIZE + lo && lo < hi <= BLKSIZE
    requires i * BLKSIZE + hi <= node.size
    ensures LoadBlock(image, node, i).Some? ==>
      Got(image, node, chunks, offset, i * BLKSIZE + hi, bytes + LoadBlock(image, node, i).value[lo..hi])
    ensures LoadBlock(image, node, i).None? && ReadsFile(image, node, chunks) ==>
      |Join(chunks)| == node.size && i * BLKSIZE + hi > L1_NBLKS * BLKSIZE
  {
    hide ReadsFile, LoadBlock, Join;
    Loaded(image, node, chunks, i, lo, hi);
  }

  lemma GotAll(image: map<nat, Content>, node: Inode, chunks: seq<seq<Byte>>, offset: nat, endpos: nat,
      bytes: seq<Byte>)
    requires Got(image, node, chunks, offset, endpos, bytes) && offset < endpos
    ensures ReadsFile(image, node, chunks) ==>
      |Join(chunks)| == node.size && endpos <= |Join(chunks)| && bytes == Join(chunks)[offset..endpos]
      && endpos <= L1_NBLKS * BLKSIZE
  {
    hide ReadsFile, Join;
  }

  lemma FileIs(image: map<nat, Content>, node: Inode, chunks: seq<seq<Byte>>)
    requires ReadsFile(image, node, chunks)
    ensures node.kind == FILE && node.size == |Join(chunks)| <= MAX_FILE_SIZE
  {
    hide ReadsAs, Total, Join;
    JoinTotal(chunks);
  }

  /** Part of a block of the file. */
  lemma Loaded(image: map<nat, Content>, node: Inode, chunks: seq<seq<Byte>>, i: nat, lo: nat, hi: nat)
    requires lo < hi <= BLKSIZE
    ensures ReadsFile(image, node, chunks) && i * BLKSIZE + hi <= node.size ==>
      var block := LoadBlock(image, node, i);
      && |Join(chunks)| == node.size && (block.Some? <==> i < L1_NBLKS)
      && (block.Some? ==> block.value[lo..hi] == Join(chunks)[i * BLKSIZE + lo..i * BLKSIZE + hi])
  {
    hide Padded, InUse, KernelBlockAt, Total, Join, FullBlocks;
    if ReadsFile(image, node, chunks) && i * BLKSIZE + hi <= node.size {
      JoinTotal(chunks);
      assert i * BLKSIZE < |chunks| * BLKSIZE;
      assert ReadsAs(image, node, i, chunks[i]);
      Piece(chunks, i, lo, hi);
    }
  }

  // ---------------------------------------------------------------- from the host's path to its bytes

  /** What reading the host file under a path should give. */
  ghost function ExpectedOf(target: Host, home: Host, offset: nat, len: nat): Outcome {
    if !target.HostFile? || Wrapped(target, Tally(home)) then Panic else Expected(Join(target.chunks), offset, len)
  }

  /**
   Look a file up on the image that create_img made, name by name, and read from it: the bytes are the host's, but the
   kernel panics beyond its reach, and if the file's links are counted as none.
   */
  method ReadPath(image: map<nat, Content>, path: seq<Name>, offset: nat, len: nat, ghost sfs: Sfs, ghost home: Host,
      ghost target: Host)
    returns (r: Outcome)
    requires path != [] && Path(home, path, target) && target.HostFile? && PlainNames(home)
    requires image == sfs.image && Imaged(sfs, home)
    ensures r == ExpectedOf(target, home, offset, len)
  {
    hide Imaged, PlainNames, Path, Walk, ReadsFile, Wrapped, Tally, Expected, Join;
    HostFileFound(sfs, home, path, target);
    match Walk(image, BLKN_ROOT, path)
    case Found(n) =>
      if n !in image || !image[n].Node? {
        return Panic;
      }
      r := Read(image, image[n].inode, offset, len, target.chunks);
    case _ =>
      r := Panic;
  }

  /** An image file of that many bytes, below 2^44, has room: superblock, root, free map, and what the bill says. */
  ghost predicate RoomFor(bill: Option<Bill>, bytes: nat) {
    var blocks := if bytes / 4096 > 524288 then 524288 else bytes / 4096;
    bytes >= 16384 && bill.Some? && 2 + (blocks + 32767) / 32768 + bill.value.cost <= blocks
  }

  lemma RoomIs(bill: Option<Bill>, bytes: nat)
    requires bytes < 4096 * 0x1_0000_0000
    ensures RoomFor(bill, bytes) <==> Ninos(bytes) >= 4 && Affordable(bill, FirstIno(Ninos(bytes)), Ninos(bytes))
  {
    assert bytes / 4096 % 0x1_0000_0000 == bytes / 4096;
  }

  /**
   From the host's tree to the kernel's read: the tool builds an image in a file of `size` bytes, or gives up, and then
   the kernel reads from the file under the path.
   */
  method BuildAndRead(size: nat, home: Host, ghost data: map<nat, seq<seq<Byte>>>, path: seq<Name>,
      ghost target: Host, offset: nat, len: nat)
    returns (r: Option<Outcome>)
    requires home.HostDir? && WellFormed(home, data) && 0 !in data && PlainNames(home)
    requires path != [] && Path(home, path, target) && target.HostFile?
    ensures r.Some? <==>
      Ninos(size) >= 4 && Affordable(BillDir(home, |home.entries|, {0}), FirstIno(Ninos(size)), Ninos(size))
    ensures size < 4096 * 0x1_0000_0000 ==> (r.Some? <==> RoomFor(BillDir(home, |home.entries|, {0}), size))
    ensures r.Some? ==> r.value == ExpectedOf(target, home, offset, len)
  {
    hide WellFormed, BillDir, Path, PlainNames, ExpectedOf, Imaged, Sfs.Valid, Affordable, Ninos, FirstIno, RoomFor,
      Shows;
    if size < 4096 * 0x1_0000_0000 {
      RoomIs(BillDir(home, |home.entries|, {0}), size);
    }
    var sfs := CreateSfs(size);
    if sfs == null {
      return None;
    }
    var ok := CreateImg(sfs, home, data);
    if !ok {
      return None;
    }
    var read := ReadPath(sfs.image, path, offset, len, sfs, home, target);
    r := Some(read);
  }
}
