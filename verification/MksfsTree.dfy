/**
 The walk over the host directory tree in lab8/tools/mksfs.c: open_dir and the functions it calls for
 every directory entry.
 */
module MksfsTree {
  import opened Words
  import opened SfsLayout
  import opened SfsInode
  import opened Mksfs
  import opened HostTree

  /** The number of blocks that create_sfs uses of an image file of that many bytes: a 32-bit number, and capped. */
  function Ninos(bytes: nat): nat {
    var n := bytes / BLKSIZE % 0x1_0000_0000;
    if n > MAX_NBLKS then MAX_NBLKS else n
  }

  /** create_sfs; null is its refusal of an image that is too small. */
  method CreateSfs(bytes: nat) returns (sfs: Sfs?)
    ensures sfs == null <==> Ninos(bytes) < 4
    ensures sfs != null ==> 4096 * sfs.ninos <= bytes && sfs.ninos <= 524288
    ensures sfs != null ==> sfs.nextIno == 2 + (sfs.ninos + 32767) / 32768
    ensures bytes < 4096 * 0x1_0000_0000 ==>
      && (sfs == null <==> bytes < 16384)
      && (sfs != null ==> bytes < 4096 * (sfs.ninos + 1) || sfs.ninos == 524288)
    ensures sfs != null ==> fresh(sfs) && sfs.Valid() && sfs.ninos == Ninos(bytes) && sfs.nextIno == FirstIno(sfs.ninos)
    ensures sfs != null ==> sfs.files == {sfs.root} && fresh(sfs.root) && sfs.tables == {}
    ensures sfs != null ==> sfs.root.kind == DIR && sfs.root.contents == [] && sfs.root.realIno == 0
    ensures sfs != null ==> sfs.root.nlinks == 0 && sfs.root.size == 0
  {
    var ninos := Ninos(bytes);
    if FirstIno(ninos) >= ninos {
      return null;
    }
    sfs := new Sfs(ninos);
    assert sfs.root.Shape() by {
      FileIs(sfs.files, sfs.tables, sfs.root, sfs.role, sfs.image, sfs.root);
    }
  }

  // ---------------------------------------------------------------- what the walk keeps

  /** FILE inodes are those of host files, and each holds what its file holds; directories have 256 bytes a block. */
  ghost predicate Faithful(files: set<CacheInode>, data: map<nat, seq<seq<Byte>>>)
    reads files
  {
    forall g :: g in files ==> FaithfulTo(g, data)
  }

  ghost predicate FaithfulTo(g: CacheInode, data: map<nat, seq<seq<Byte>>>)
    reads g
  {
    && (g.kind == FILE <==> g.realIno in data)
    && (g.kind == FILE ==> HoldsChunks(BodyOf(g), data[g.realIno]))
    && (g.kind == DIR ==> g.size == FNAME_SIZE * |g.contents|)
  }

  ghost function Reals(files: set<CacheInode>): set<nat> {
    set g | g in files :: g.realIno
  }

  ghost function BodyOf(g: CacheInode): Body
    reads g
  {
    Body(g.contents, g.size, if g.kind == FILE then 0 else g.nlinks)
  }

  /** The inodes that are finished: all but the directories still open. */
  ghost function Finished(files: set<CacheInode>, open: set<CacheInode>): Held
    reads files
  {
    map g | g in files - open :: BodyOf(g)
  }

  // ---------------------------------------------------------------- link counts

  /**
   The links of an inode when `tally` are the names of files so far: in 16 bits as many as the file has names, one for
   a link, and at least two for a directory; nothing is said of those still open.
   */
  ghost predicate LinkedTo(g: CacheInode, open: set<CacheInode>, tally: multiset<nat>)
    reads g
  {
    match g.kind
    case FILE => g.nlinks == tally[g.realIno] % 0x1_0000
    case LINK => g !in open ==> g.nlinks == 1
    case DIR => g !in open ==> 2 <= g.nlinks
  }

  ghost predicate CountsRight(files: set<CacheInode>, open: set<CacheInode>, tally: multiset<nat>)
    reads files
  {
    forall g :: g in files ==> LinkedTo(g, open, tally)
  }

  /** No host file has two inodes. */
  ghost predicate Unique(files: set<CacheInode>) {
    forall f, g :: f in files && g in files && f.kind == FILE && g.kind == FILE && f.realIno == g.realIno ==> f == g
  }

  ghost function FileReals(files: set<CacheInode>): set<nat> {
    set g | g in files && g.kind == FILE :: g.realIno
  }

  /** The files that have an inode are those that have a name. */
  ghost predicate Tallied(files: set<CacheInode>, tally: multiset<nat>) {
    forall r :: r in tally <==> r in FileReals(files)
  }

  ghost predicate Ledger(files: set<CacheInode>, open: set<CacheInode>, tally: multiset<nat>)
    reads files
  {
    Unique(files) && CountsRight(files, open, tally) && Tallied(files, tally)
  }

  /** Once its links are counted, an inode need not be open any more. */
  lemma Closed(files: set<CacheInode>, open: set<CacheInode>, g: CacheInode, tally: multiset<nat>)
    requires CountsRight(files, open + {g}, tally)
    requires (g.kind == LINK ==> g.nlinks == 1) && (g.kind == DIR ==> 2 <= g.nlinks)
    ensures CountsRight(files, open, tally)
  {
    forall h | h in files
      ensures LinkedTo(h, open, tally)
    {
      assert LinkedTo(h, open + {g}, tally);
    }
  }

  lemma NewInode(files: set<CacheInode>, open: set<CacheInode>, g: CacheInode, tally: multiset<nat>)
    requires Unique(files) && CountsRight(files, open, tally) && g !in files && g.nlinks == 0
    requires g.kind == FILE ==> g.realIno !in FileReals(files) && g.realIno !in tally
    ensures Unique(files + {g}) && CountsRight(files + {g}, open + {g}, tally)
    ensures FileReals(files + {g}) == FileReals(files) + if g.kind == FILE then {g.realIno} else {}
  {
    forall h | h in files
      ensures LinkedTo(h, open + {g}, tally)
    {
      assert LinkedTo(h, open, tally);
    }
  }

  /** One more name of a file. */
  lemma OneMoreName(tally: multiset<nat>, r: nat, q: nat)
    ensures (tally + multiset{r})[q] == tally[q] + if q == r then 1 else 0
    ensures (tally[r] % 0x1_0000 + 1) % 0x1_0000 == (tally + multiset{r})[r] % 0x1_0000
  {
  }

  // ---------------------------------------------------------------- a directory being filled

  /** Directory `dir` is being filled, like those of `open`; `tally` are the names of files so far. */
  ghost predicate Filling(sfs: Sfs, dir: CacheInode, open: set<CacheInode>, data: map<nat, seq<seq<Byte>>>,
      tally: multiset<nat>)
    reads sfs, sfs.files, sfs.tables
  {
    && sfs.Valid() && Faithful(sfs.files, data) && Ledger(sfs.files, open, tally) && dir in open && open <= sfs.files
    && forall g :: g in open ==> g.kind == DIR
  }

  /** What all steps of the walk keep; only `dir` gets new blocks, and only `dir`, `up` and files new links. */
  twostate predicate Kept(sfs: Sfs, dir: CacheInode, up: CacheInode)
    reads sfs, sfs.files
  {
    && old(sfs.files) <= sfs.files && fresh(sfs.files - old(sfs.files))
    && old(sfs.tables) <= sfs.tables && fresh(sfs.tables - old(sfs.tables))
    && (forall g :: g in old(sfs.files) && g != dir ==> g.contents == old(g.contents) && g.size == old(g.size))
    && (forall g :: g in old(sfs.files) && g.kind != FILE && g != dir && g != up ==> g.nlinks == old(g.nlinks))
  }

  /** The numbers for the bill are there. */
  ghost predicate Affordable(bill: Option<Bill>, next: nat, ninos: nat) {
    bill.Some? && next + bill.value.cost <= ninos
  }

  /** The bill has been paid. */
  ghost predicate Paid(bill: Option<Bill>, before: nat, after: nat, files: set<CacheInode>) {
    bill.Some? && after == before + bill.value.cost && Reals(files) == bill.value.seen
  }

  /** One more block, which names the entry's object. */
  ghost predicate Extended(before: seq<Content>, after: seq<Content>, e: HostEntry, up: nat, held: Held) {
    |after| == |before| + 1 && after[..|before|] == before && Named(after[|before|], e, up, held)
  }

  lemma Within(sfs: Sfs, file: CacheInode)
    requires sfs.Valid() && file in sfs.files
    ensures file.repr <= sfs.tables && |sfs.entryName| == FNAME_SIZE && file.nblks == |file.contents|
    ensures |file.contents| <= LN_NBLKS && sfs.nextIno <= sfs.ninos
  {
    sfs.KnownCounts(file);
    sfs.Known(file);
  }

  lemma RealsAdd(files: set<CacheInode>, g: CacheInode)
    ensures Reals(files + {g}) == Reals(files) + {g.realIno}
  {
  }

  // ---------------------------------------------------------------- directory entries

  function Plus(tally: multiset<nat>, file: CacheInode): multiset<nat> {
    if file.kind == FILE then tally + multiset{file.realIno} else tally
  }

  /** add_entry, seen from the walk. */
  method Enter(sfs: Sfs, current: CacheInode, file: CacheInode, name: Name, ghost open: set<CacheInode>,
      ghost data: map<nat, seq<seq<Byte>>>, ghost tally: multiset<nat>)
    returns (ok: bool)
    requires sfs.Valid() && Faithful(sfs.files, data) && Unique(sfs.files) && CountsRight(sfs.files, open, tally)
    requires current in sfs.files && current.kind == DIR && file in sfs.files && |name| < FNAME_SIZE
    requires file.kind != FILE ==> file in open
    modifies sfs, sfs.files, sfs.tables
    ensures ok <==>
      old(|current.contents|) < LN_NBLKS && old(sfs.nextIno) + 1 + NewTables(old(|current.contents|)) <= sfs.ninos
    ensures ok ==> sfs.Valid() && Faithful(sfs.files, data) && Kept(sfs, current, file) && sfs.files == old(sfs.files)
    ensures ok ==> CountsRight(sfs.files, open, Plus(tally, file))
    ensures ok ==> file.nlinks == (old(file.nlinks) + 1) % 0x1_0000
    ensures ok && file != current ==> current.nlinks == old(current.nlinks)
    ensures ok ==> sfs.nextIno == old(sfs.nextIno) + 1 + NewTables(old(|current.contents|))
    ensures ok ==> |current.contents| == old(|current.contents|) + 1
    ensures ok ==> current.contents[..old(|current.contents|)] == old(current.contents)
    ensures ok ==> EntryFor(current.contents[old(|current.contents|)], file.ino, name)
  {
    hide Sfs.Valid, HoldsChunks, EntryBlock, NameField, NewTables;
    Within(sfs, current);
    ghost var stale := sfs.entryName;
    ok := sfs.AddEntry(current, file, name);
    if ok {
      ghost var c := Bytes(EntryBlock(file.ino, NameField(name, stale)));
      assert EntryFor(c, file.ino, name);
      forall g | g in sfs.files
        ensures LinkedTo(g, open, Plus(tally, file))
      {
        assert old(LinkedTo(g, open, tally));
        OneMoreName(tally, file.realIno, g.realIno);
      }
      forall g | g in sfs.files
        ensures FaithfulTo(g, data)
      {
        assert old(FaithfulTo(g, data));
      }
    }
  }

  /** alloc_cache_inode, seen from the walk: an inode that is still empty and has no name. */
  method NewNode(sfs: Sfs, realIno: nat, kind: Kind, ghost open: set<CacheInode>,
      ghost data: map<nat, seq<seq<Byte>>>, ghost tally: multiset<nat>)
    returns (ok: bool, g: CacheInode?)
    requires sfs.Valid() && Faithful(sfs.files, data) && Ledger(sfs.files, open, tally)
    requires kind == FILE ==> realIno !in Reals(sfs.files)
    modifies sfs
    ensures ok <==> old(sfs.nextIno) < sfs.ninos
    ensures ok ==> sfs.Valid() && Faithful(old(sfs.files), data) && sfs.nextIno == old(sfs.nextIno) + 1
    ensures ok ==> g != null && fresh(g) && sfs.files == old(sfs.files) + {g} && sfs.tables == old(sfs.tables)
    ensures ok ==> g.kind == kind && g.realIno == realIno && g.repr == {} && g.nblks == 0
    ensures ok ==> g.contents == [] && g.size == 0 && g.nlinks == 0
    ensures ok ==> Unique(sfs.files) && CountsRight(sfs.files, open + {g}, tally)
    ensures ok ==> FileReals(sfs.files) == old(FileReals(sfs.files)) + if kind == FILE then {realIno} else {}
    ensures ok ==> Reals(sfs.files) == old(Reals(sfs.files)) + {realIno}
  {
    hide Sfs.Valid, Faithful, CountsRight, Unique, Reals, FileReals;
    FileRealsAre(sfs.files);
    ok, g := sfs.AllocCacheInode(realIno, kind);
    if ok {
      RealsAdd(old(sfs.files), g);
      NewInode(old(sfs.files), open, g, tally);
    }
  }

  lemma FileRealsAre(files: set<CacheInode>)
    ensures FileReals(files) <= Reals(files)
  {
  }

  lemma OneMoreFaithful(files: set<CacheInode>, g: CacheInode, data: map<nat, seq<seq<Byte>>>)
    requires Faithful(files, data) && FaithfulTo(g, data)
    ensures Faithful(files + {g}, data)
  {
  }

  /** A new inode, filled from the host file; it has no name yet. */
  method NewFile(sfs: Sfs, host: Host, ghost open: set<CacheInode>,
      ghost data: map<nat, seq<seq<Byte>>>, ghost tally: multiset<nat>)
    returns (ok: bool, file: CacheInode?)
    requires sfs.Valid() && Faithful(sfs.files, data) && host.HostFile? && WellFormed(host, data)
    requires Ledger(sfs.files, open, tally) && host.realIno !in Reals(sfs.files)
    modifies sfs, sfs.files, sfs.tables
    ensures ok <==> Affordable(BillOf(host, old(Reals(sfs.files))), old(sfs.nextIno), sfs.ninos)
    ensures ok ==> sfs.Valid() && Faithful(sfs.files, data) && Kept(sfs, sfs.root, sfs.root)
    ensures ok ==> BodyOf(sfs.root) == old(BodyOf(sfs.root))
    ensures ok ==> Unique(sfs.files) && CountsRight(sfs.files, open, tally)
    ensures ok ==> FileReals(sfs.files) == old(FileReals(sfs.files)) + {host.realIno}
    ensures ok ==>
      Paid(BillOf(host, old(Reals(sfs.files))), old(sfs.nextIno), sfs.nextIno, sfs.files)
    ensures ok ==> file != null && file in sfs.files && file.kind == FILE && file.realIno == host.realIno
  {
    hide Sfs.Valid, PaddedAll, NewTables, FullBlocks, Needed, Reals, FileReals, LinkedTo, FaithfulTo, Unique, Tallied;
    ok, file := NewNode(sfs, host.realIno, FILE, open, data, tally);
    if ok {
      Closed(sfs.files, open, file, tally);
      ok := FillFile(sfs, file, host.chunks, open, data, tally);
      if ok {
        OneMoreFaithful(old(sfs.files), file, data);
      }
    }
  }

  /** open_file, seen from the walk. */
  method FillFile(sfs: Sfs, file: CacheInode, chunks: seq<seq<Byte>>, ghost open: set<CacheInode>,
      ghost data: map<nat, seq<seq<Byte>>>, ghost tally: multiset<nat>)
    returns (ok: bool)
    requires sfs.Valid() && file in sfs.files && file.kind == FILE && file.realIno in data
    requires Chunks(chunks) && data[file.realIno] == chunks
    requires Faithful(sfs.files - {file}, data) && CountsRight(sfs.files, open, tally)
    requires file.repr == {} && file.nblks == 0 && file.contents == [] && file.size == 0
    modifies sfs, file
    ensures ok <==>
      FullBlocks(chunks) && |chunks| <= LN_NBLKS && old(sfs.nextIno) + Needed(0, |chunks|) <= sfs.ninos
    ensures ok ==> sfs.Valid() && sfs.files == old(sfs.files) && FaithfulTo(file, data)
    ensures ok ==> Faithful(sfs.files - {file}, data) && CountsRight(sfs.files, open, tally)
    ensures ok ==> sfs.nextIno == old(sfs.nextIno) + Needed(0, |chunks|)
    ensures ok ==> old(sfs.tables) <= sfs.tables && fresh(sfs.tables - old(sfs.tables))
  {
    hide Sfs.Valid, PaddedAll, FullBlocks, Needed;
    ok := sfs.OpenFile(file, chunks);
    assert ok ==> forall g :: g in sfs.files && old(LinkedTo(g, open, tally)) ==> LinkedTo(g, open, tally);
    assert ok ==> forall g :: g in sfs.files && g != file && old(FaithfulTo(g, data)) ==> FaithfulTo(g, data);
  }

  /** The inode of the host file: the one it has already, or a new one. */
  method FindFile(sfs: Sfs, host: Host, ghost open: set<CacheInode>, ghost data: map<nat, seq<seq<Byte>>>,
      ghost tally: multiset<nat>)
    returns (ok: bool, file: CacheInode?)
    requires sfs.Valid() && Faithful(sfs.files, data) && Ledger(sfs.files, open, tally)
    requires host.HostFile? && WellFormed(host, data)
    modifies sfs, sfs.files, sfs.tables
    ensures ok <==>
      || host.realIno in old(Reals(sfs.files))
      || Affordable(BillOf(host, old(Reals(sfs.files))), old(sfs.nextIno), sfs.ninos)
    ensures ok ==> Paid(BillOf(host, old(Reals(sfs.files))), old(sfs.nextIno), sfs.nextIno, sfs.files)
    ensures ok ==> sfs.Valid() && Faithful(sfs.files, data) && Kept(sfs, sfs.root, sfs.root)
    ensures ok ==> BodyOf(sfs.root) == old(BodyOf(sfs.root))
    ensures ok ==> Unique(sfs.files) && CountsRight(sfs.files, open, tally)
    ensures ok ==> Tallied(sfs.files, tally + multiset{host.realIno})
    ensures ok ==> file != null && file in sfs.files && file.kind == FILE && file.realIno == host.realIno
    ensures ok && host.realIno in old(Reals(sfs.files)) ==> sfs.files == old(sfs.files)
  {
    hide Sfs.Valid, Needed, BillOf, WellFormed, Reals, CountsRight, Unique, Tallied, Faithful, FileReals;
    IsSeen(sfs.files, host.realIno);
    SeenIsFree(host, Reals(sfs.files));
    ok := true;
    file := sfs.SearchCacheInode(host.realIno);
    if file == null {
      ok, file := NewFile(sfs, host, open, data, tally);
      if !ok {
        return;
      }
    }
    KindOf(sfs.files, file, host, data);
    TalliedMore(old(sfs.files), sfs.files, file, tally);
  }

  /** add_file: the host file becomes an inode once, under whatever names it has. */
  method AddFile(sfs: Sfs, current: CacheInode, e: HostEntry, ghost open: set<CacheInode>,
      ghost data: map<nat, seq<seq<Byte>>>, ghost tally: multiset<nat>)
    returns (ok: bool)
    requires Filling(sfs, current, open, data, tally) && e.host.HostFile? && WellFormed(e.host, data)
    requires |e.name| < FNAME_SIZE
    modifies sfs, sfs.files, sfs.tables
    ensures ok <==>
      Affordable(BillEntry(e.host, old(|current.contents|), old(Reals(sfs.files))), old(sfs.nextIno), sfs.ninos)
    ensures ok ==> Filling(sfs, current, open, data, tally + multiset{e.host.realIno}) && Kept(sfs, current, current)
    ensures ok ==> current.nlinks == old(current.nlinks)
    ensures ok ==>
      Paid(BillEntry(e.host, old(|current.contents|), old(Reals(sfs.files))), old(sfs.nextIno), sfs.nextIno, sfs.files)
    ensures ok ==> Extended(old(current.contents), current.contents, e, current.ino, Finished(sfs.files, open))
    ensures ok && e.host.realIno in old(Reals(sfs.files)) ==> sfs.files == old(sfs.files)
  {
    hide Sfs.Valid, NewTables, EntryFor, Made, Named, BillOf, WellFormed, Reals, CountsRight, Unique, Tallied, Faithful,
      Shown, BillDir, BillNext, FileReals, HoldsChunks, Filled;
    SeenIsFree(e.host, Reals(sfs.files));
    FillingIs(sfs, current, open, data, tally);
    var file;
    ok, file := FindFile(sfs, e.host, open, data, tally);
    if !ok {
      return;
    }
    ghost var before := current.contents;
    ok := Enter(sfs, current, file, e.name, open, data, tally);
    if ok {
      ghost var held := Finished(sfs.files, open);
      FileMade(sfs.files, file, e.host, current.ino, held, data);
      MadeNamed(current.contents[|before|], e, current.ino, held, file);
    }
  }

  /** A file with an inode gets a name; it is its first one, or the file is tallied already. */
  lemma TalliedMore(before: set<CacheInode>, files: set<CacheInode>, g: CacheInode, tally: multiset<nat>)
    requires g in files && g.kind == FILE && Tallied(before, tally) && FileReals(before) <= FileReals(files)
    requires FileReals(files) <= FileReals(before) + {g.realIno}
    ensures Tallied(files, tally + multiset{g.realIno})
  {
  }

  /** An inode of the host link, which has no name yet. */
  ghost predicate IsLink(files: set<CacheInode>, g: CacheInode?, host: Host)
    reads files
  {
    && g != null && g in files && host.HostLink? && g.kind == LINK && g.realIno == host.realIno
    && host.target.Some? && |host.target.value| <= BLKSIZE
    && BodyOf(g) == Body([Bytes(Padded(host.target.value))], |host.target.value|, 0)
  }

  ghost predicate LedgerWith(files: set<CacheInode>, open: set<CacheInode>, g: CacheInode?, tally: multiset<nat>)
    reads files
  {
    g != null && Ledger(files, open + {g}, tally)
  }

  /** A new inode, filled from the host link; it has no name yet. */
  method NewLink(sfs: Sfs, host: Host, ghost open: set<CacheInode>,
      ghost data: map<nat, seq<seq<Byte>>>, ghost tally: multiset<nat>)
    returns (ok: bool, file: CacheInode?)
    requires sfs.Valid() && Faithful(sfs.files, data) && host.HostLink? && WellFormed(host, data)
    requires Ledger(sfs.files, open, tally)
    modifies sfs, sfs.files, sfs.tables
    ensures ok <==> Affordable(BillOf(host, old(Reals(sfs.files))), old(sfs.nextIno), sfs.ninos)
    ensures ok ==> sfs.Valid() && Faithful(sfs.files, data) && Kept(sfs, sfs.root, sfs.root)
    ensures ok ==> BodyOf(sfs.root) == old(BodyOf(sfs.root))
    ensures ok ==>
      Paid(BillOf(host, old(Reals(sfs.files))), old(sfs.nextIno), sfs.nextIno, sfs.files)
    ensures ok ==> file != null && fresh(file) && IsLink(sfs.files, file, host)
    ensures ok ==> LedgerWith(sfs.files, open, file, tally)
  {
    hide Sfs.Valid, PaddedAll, Padded, Reals, FileReals, LinkedTo, FaithfulTo, Unique;
    ok, file := NewNode(sfs, host.realIno, LINK, open, data, tally);
    if ok {
      ok := FillLink(sfs, file, host.target, open + {file}, data, tally);
      if ok {
        OneMoreFaithful(old(sfs.files), file, data);
      }
    }
  }

  /** open_link, seen from the walk. */
  method FillLink(sfs: Sfs, file: CacheInode, target: Option<seq<Byte>>, ghost open: set<CacheInode>,
      ghost data: map<nat, seq<seq<Byte>>>, ghost tally: multiset<nat>)
    returns (ok: bool)
    requires sfs.Valid() && file in sfs.files && file.kind == LINK && file.realIno !in data
    requires target.Some? ==> |target.value| <= BLKSIZE
    requires Faithful(sfs.files - {file}, data) && CountsRight(sfs.files, open, tally)
    requires file.repr == {} && file.nblks == 0 && file.contents == [] && file.size == 0
    modifies sfs, file
    ensures ok <==> target.Some? && |target.value| < BLKSIZE && old(sfs.nextIno) + 1 <= sfs.ninos
    ensures ok ==> sfs.Valid() && sfs.files == old(sfs.files) && FaithfulTo(file, data)
    ensures ok ==> Faithful(sfs.files - {file}, data) && CountsRight(sfs.files, open, tally)
    ensures ok ==> sfs.nextIno == old(sfs.nextIno) + 1 && target.Some? && |target.value| <= BLKSIZE
    ensures ok ==> file.contents == [Bytes(Padded(target.value))] && file.size == |target.value|
    ensures ok ==> file.nlinks == old(file.nlinks)
    ensures ok ==> old(sfs.tables) <= sfs.tables && fresh(sfs.tables - old(sfs.tables))
  {
    hide Sfs.Valid, Padded;
    ok := sfs.OpenLink(file, target);
    assert ok ==> forall g :: g in sfs.files && old(LinkedTo(g, open, tally)) ==> LinkedTo(g, open, tally);
    assert ok ==> forall g :: g in sfs.files && g != file && old(FaithfulTo(g, data)) ==> FaithfulTo(g, data);
  }

  /** add_link */
  method AddLink(sfs: Sfs, current: CacheInode, e: HostEntry, ghost open: set<CacheInode>,
      ghost data: map<nat, seq<seq<Byte>>>, ghost tally: multiset<nat>)
    returns (ok: bool)
    requires Filling(sfs, current, open, data, tally) && e.host.HostLink? && WellFormed(e.host, data)
    requires |e.name| < FNAME_SIZE
    modifies sfs, sfs.files, sfs.tables
    ensures ok <==>
      Affordable(BillEntry(e.host, old(|current.contents|), old(Reals(sfs.files))), old(sfs.nextIno), sfs.ninos)
    ensures ok ==> Filling(sfs, current, open, data, tally) && Kept(sfs, current, current)
    ensures ok ==> current.nlinks == old(current.nlinks)
    ensures ok ==>
      Paid(BillEntry(e.host, old(|current.contents|), old(Reals(sfs.files))), old(sfs.nextIno), sfs.nextIno, sfs.files)
    ensures ok ==> Extended(old(current.contents), current.contents, e, current.ino, Finished(sfs.files, open))
  {
    hide Sfs.Valid, NewTables, EntryFor, PaddedAll, Padded, Chunks, Faithful, Reals, BillOf, CountsRight, Unique,
      FileReals;
    var file;
    ok, file := NewLink(sfs, e.host, open, data, tally);
    if ok {
      ok := Enter(sfs, current, file, e.name, open + {file}, data, tally);
    }
    if ok {
      Closed(sfs.files, open, file, tally);
      ghost var held := Finished(sfs.files, open);
      assert file in held && held[file] == BodyOf(file) && Made(file, e.host, current.ino, held);
    }
  }

  /** A new inode for a directory, still empty. */
  method NewDir(sfs: Sfs, realIno: nat, ghost open: set<CacheInode>, ghost data: map<nat, seq<seq<Byte>>>,
      ghost tally: multiset<nat>)
    returns (ok: bool, dir: CacheInode?)
    requires sfs.Valid() && Faithful(sfs.files, data) && Ledger(sfs.files, open, tally) && realIno !in data
    modifies sfs
    ensures ok <==> old(sfs.nextIno) < sfs.ninos
    ensures ok ==> sfs.Valid() && Faithful(sfs.files, data) && sfs.nextIno == old(sfs.nextIno) + 1
    ensures ok ==> dir != null && fresh(dir) && sfs.files == old(sfs.files) + {dir} && sfs.tables == old(sfs.tables)
    ensures ok ==> dir.kind == DIR && dir.realIno == realIno && dir.contents == [] && dir.nlinks == 0
    ensures ok ==> LedgerWith(sfs.files, open, dir, tally)
    ensures ok ==> Reals(sfs.files) == old(Reals(sfs.files)) + {realIno}
  {
    hide Sfs.Valid, Reals, FileReals, CountsRight, Unique;
    ok, dir := NewNode(sfs, realIno, DIR, open, data, tally);
    if ok {
      OneMoreFaithful(old(sfs.files), dir, data);
    }
  }

  /** add_dir: it gives up on a directory it has seen before. */
  method AddDir(sfs: Sfs, parent: CacheInode, e: HostEntry, ghost open: set<CacheInode>,
      ghost data: map<nat, seq<seq<Byte>>>, ghost tally: multiset<nat>)
    returns (ok: bool)
    requires Filling(sfs, parent, open, data, tally) && e.host.HostDir? && WellFormed(e.host, data)
    requires |e.name| < FNAME_SIZE
    modifies sfs, sfs.files, sfs.tables
    ensures ok <==>
      Affordable(BillEntry(e.host, old(|parent.contents|), old(Reals(sfs.files))), old(sfs.nextIno), sfs.ninos)
    ensures ok ==> Filling(sfs, parent, open, data, tally + NamesOf(e.host, |e.host.entries|))
    ensures ok ==> Kept(sfs, parent, parent) && parent.nlinks == (old(parent.nlinks) + 1) % 0x1_0000
    ensures ok ==>
      Paid(BillEntry(e.host, old(|parent.contents|), old(Reals(sfs.files))), old(sfs.nextIno), sfs.nextIno, sfs.files)
    ensures ok ==> Extended(old(parent.contents), parent.contents, e, parent.ino, Finished(sfs.files, open))
    decreases e.host, 2
  {
    hide Sfs.Valid, NewTables, EntryFor, Faithful, Reals, BillOf, Filled, Named, Made, WellFormed, Unique, CountsRight,
      Tallied, NamesOf, Subdirs, Shown, Inside, Extended, BillDir, BillNext, Ledger;
    var seen := sfs.SearchCacheInode(e.host.realIno);
    IsSeen(sfs.files, e.host.realIno);
    SeenIsRefused(e.host, Reals(sfs.files));
    if seen != null {
      return false;
    }
    var current;
    ok, current := MakeDir(sfs, parent, e.host, open, data, tally);
    if !ok {
      return;
    }
    ok := NameDir(sfs, parent, current, e, open, data, tally + NamesOf(e.host, |e.host.entries|));
  }

  /** The directory that was made gets its name. */
  method NameDir(sfs: Sfs, parent: CacheInode, current: CacheInode, e: HostEntry, ghost open: set<CacheInode>,
      ghost data: map<nat, seq<seq<Byte>>>, ghost tally: multiset<nat>)
    returns (ok: bool)
    requires Filling(sfs, parent, open + {current}, data, tally) && parent in open && current !in open
    requires Inside(current, parent.ino, e.host, Finished(sfs.files, open + {current})) && |e.name| < FNAME_SIZE
    modifies sfs, sfs.files, sfs.tables
    ensures ok <==>
      old(|parent.contents|) < LN_NBLKS && old(sfs.nextIno) + 1 + NewTables(old(|parent.contents|)) <= sfs.ninos
    ensures ok ==> Filling(sfs, parent, open, data, tally) && Kept(sfs, parent, current) && sfs.files == old(sfs.files)
    ensures ok ==> parent.nlinks == old(parent.nlinks)
    ensures ok ==> sfs.nextIno == old(sfs.nextIno) + 1 + NewTables(old(|parent.contents|))
    ensures ok ==> Extended(old(parent.contents), parent.contents, e, parent.ino, Finished(sfs.files, open))
  {
    hide Sfs.Valid, NewTables, EntryFor, Faithful, Filled, Named, Made, Unique, CountsRight, Tallied, Subdirs;
    ghost var inside, before := Finished(sfs.files, open + {current}), parent.contents;
    ok := Enter(sfs, parent, current, e.name, open + {current}, data, tally);
    if ok {
      Closed(sfs.files, open, current, tally);
      ghost var held := Finished(sfs.files, open);
      DirSize(sfs.files, current, data);
      assert Includes(inside, held);
      DirMade(current, e.host, parent.ino, inside, held);
      MadeNamed(parent.contents[|before|], e, parent.ino, held, current);
    }
  }

  lemma DirSize(files: set<CacheInode>, g: CacheInode, data: map<nat, seq<seq<Byte>>>)
    requires Faithful(files, data) && g in files && g.kind == DIR
    ensures g.size == FNAME_SIZE * |g.contents|
  {
  }

  lemma SeenIsRefused(host: Host, seen: set<nat>)
    requires host.HostDir?
    ensures host.realIno in seen ==> BillOf(host, seen) == None
  {
  }

  /** A directory inode of the host directory, filled, but without a name. */
  ghost predicate Inside(g: CacheInode, up: nat, host: Host, held: Held)
    reads g
  {
    && host.HostDir? && g.kind == DIR && g.realIno == host.realIno
    && g.nlinks == 1 + Subdirs(host.entries, |host.entries|) <= LN_NBLKS
    && Filled(g.contents, g.ino, up, host, |host.entries|, held)
  }

  /** A directory is made and filled, but not named yet. */
  method MakeDir(sfs: Sfs, parent: CacheInode, host: Host, ghost open: set<CacheInode>,
      ghost data: map<nat, seq<seq<Byte>>>, ghost tally: multiset<nat>)
    returns (ok: bool, current: CacheInode?)
    requires Filling(sfs, parent, open, data, tally) && host.HostDir? && WellFormed(host, data)
    requires host.realIno !in Reals(sfs.files)
    modifies sfs, sfs.files, sfs.tables
    ensures ok <==> Affordable(BillOf(host, old(Reals(sfs.files))), old(sfs.nextIno), sfs.ninos)
    ensures ok ==> Paid(BillOf(host, old(Reals(sfs.files))), old(sfs.nextIno), sfs.nextIno, sfs.files)
    ensures ok ==> current != null && fresh(current) && current in sfs.files
    ensures ok ==> Filling(sfs, parent, open + {current}, data, tally + NamesOf(host, |host.entries|))
    ensures ok ==> Kept(sfs, parent, parent) && parent.contents == old(parent.contents)
    ensures ok ==> parent.nlinks == (old(parent.nlinks) + 1) % 0x1_0000
    ensures ok ==> Inside(current, parent.ino, host, Finished(sfs.files, open + {current}))
    decreases host, 1
  {
    hide Sfs.Valid, Faithful, Reals, BillDir, Filled, Finished, Ledger, NamesOf;
    ok, current := NewDir(sfs, host.realIno, open, data, tally);
    if ok {
      ok := OpenDir(sfs, current, parent, host, open + {current}, data, tally);
    }
  }

  lemma DirMade(g: CacheInode, host: Host, up: nat, inside: Held, held: Held)
    requires host.HostDir? && g.kind == DIR && g.realIno == host.realIno && g in held && Includes(inside, held)
    requires held[g].size == FNAME_SIZE * |held[g].contents|
    requires held[g].nlinks == 2 + Subdirs(host.entries, |host.entries|)
    requires Filled(held[g].contents, g.ino, up, host, |host.entries|, inside)
    ensures Made(g, host, up, held)
  {
    hide Filled;
    FilledKept(held[g].contents, g.ino, up, host, |host.entries|, inside, held);
  }

  lemma MadeNamed(c: Content, e: HostEntry, up: nat, held: Held, g: CacheInode)
    requires g in held && EntryFor(c, g.ino, e.name) && Made(g, e.host, up, held)
    ensures Named(c, e, up, held)
  {
    hide EntryFor, Made;
  }

  /** A FILE inode of the host file holds what the file holds. */
  lemma FileMade(files: set<CacheInode>, g: CacheInode, host: Host, up: nat, held: Held,
      data: map<nat, seq<seq<Byte>>>)
    requires host.HostFile? && WellFormed(host, data) && Faithful(files, data) && g in files
    requires g.realIno == host.realIno && g in held && held[g] == BodyOf(g)
    ensures g.kind == FILE && Made(g, host, up, held)
  {
    assert FaithfulTo(g, data);
  }

  lemma KindOf(files: set<CacheInode>, g: CacheInode, host: Host, data: map<nat, seq<seq<Byte>>>)
    requires host.HostFile? && WellFormed(host, data) && Faithful(files, data) && g in files
    requires g.realIno == host.realIno
    ensures g.kind == FILE
  {
    assert FaithfulTo(g, data);
  }

  lemma SeenIsFree(host: Host, seen: set<nat>)
    requires host.HostFile?
    ensures host.realIno in seen ==> BillOf(host, seen) == Some(Bill(0, seen))
  {
  }

  lemma IsSeen(files: set<CacheInode>, realIno: nat)
    ensures realIno in Reals(files) <==> exists f :: f in files && f.realIno == realIno
  {
  }

  /** The entries for the directory itself and its parent. */
  method EnterDots(sfs: Sfs, current: CacheInode, parent: CacheInode, ghost open: set<CacheInode>,
      ghost data: map<nat, seq<seq<Byte>>>, ghost tally: multiset<nat>)
    returns (ok: bool)
    requires Filling(sfs, current, open, data, tally) && current.contents == [] && current.nlinks == 0
    requires parent in open
    modifies sfs, sfs.files, sfs.tables
    ensures ok <==> old(sfs.nextIno) + 2 <= sfs.ninos
    ensures ok ==> Filling(sfs, current, open, data, tally) && Kept(sfs, current, parent)
    ensures ok ==> sfs.files == old(sfs.files)
    ensures ok ==> sfs.nextIno == old(sfs.nextIno) + 2 && |current.contents| == 2
    ensures ok ==> Dots(current.contents, current.ino, parent.ino) && current.nlinks == Start(current, parent)
    ensures ok && parent != current ==> parent.nlinks == (old(parent.nlinks) + 1) % 0x1_0000
  {
    hide Sfs.Valid, Faithful, EntryFor, Unique, CountsRight, FileReals;
    ok := Enter(sfs, current, current, DOT, open, data, tally);
    if ok {
      ghost var before := current.contents;
      ok := Enter(sfs, current, parent, DOTDOT, open, data, tally);
      assert ok ==> current.contents[0] == current.contents[..|before|][0];
    }
  }

  /** A directory's links before it has subdirectories and a name: the root is its own parent. */
  function Start(current: CacheInode, parent: CacheInode): nat {
    if parent == current then 2 else 1
  }

  /**
   open_dir: it gets through exactly if the bill for the host directory can be paid, and then the directory holds what
   the host directory shows, down to the last file, and all links are counted.
   */
  method OpenDir(sfs: Sfs, current: CacheInode, parent: CacheInode, host: Host, ghost open: set<CacheInode>,
      ghost data: map<nat, seq<seq<Byte>>>, ghost tally: multiset<nat>)
    returns (ok: bool)
    requires Filling(sfs, current, open, data, tally) && current.contents == [] && current.nlinks == 0
    requires parent in open && host.HostDir? && WellFormed(host, data)
    modifies sfs, sfs.files, sfs.tables
    ensures ok <==> Affordable(BillDir(host, |host.entries|, old(Reals(sfs.files))), old(sfs.nextIno), sfs.ninos)
    ensures ok ==> Filling(sfs, current, open, data, tally + NamesOf(host, |host.entries|))
    ensures ok ==> Kept(sfs, current, parent)
    ensures ok ==> current.nlinks == Start(current, parent) + Subdirs(host.entries, |host.entries|) <= LN_NBLKS
    ensures ok && parent != current ==> parent.nlinks == (old(parent.nlinks) + 1) % 0x1_0000
    ensures ok ==> Paid(BillDir(host, |host.entries|, old(Reals(sfs.files))), old(sfs.nextIno), sfs.nextIno, sfs.files)
    ensures ok ==> Filled(current.contents, current.ino, parent.ino, host, |host.entries|, Finished(sfs.files, open))
    ensures ok ==> Shows(current.contents, current.ino, host, Finished(sfs.files, open))
    decreases host, 0, 3
  {
    hide Shows, Filling, WellFormed, Reals, BillDir, Dots, Filled, Finished, NamesOf, Subdirs;
    BillStarts(host, |host.entries|, Reals(sfs.files));
    FillingIs(sfs, current, open, data, tally);
    ok := EnterDots(sfs, current, parent, open, data, tally);
    if !ok {
      return;
    }
    ok := ShowEntries(sfs, current, parent.ino, host, open, data, tally, Start(current, parent));
    if ok {
      FilledShows(current.contents, current.ino, parent.ino, host, Finished(sfs.files, open));
    }
  }

  /** The loop of open_dir over the host directory. */
  method ShowEntries(sfs: Sfs, current: CacheInode, ghost up: nat, host: Host, ghost open: set<CacheInode>,
      ghost data: map<nat, seq<seq<Byte>>>, ghost tally: multiset<nat>, ghost start: nat)
    returns (ok: bool)
    requires Filling(sfs, current, open, data, tally) && host.HostDir? && WellFormed(host, data)
    requires |current.contents| == 2 && Dots(current.contents, current.ino, up)
    requires current.nlinks == start <= 2 <= sfs.nextIno <= sfs.ninos
    modifies sfs, sfs.files, sfs.tables
    ensures ok <==> Affordable(BillDir(host, |host.entries|, old(Reals(sfs.files))), old(sfs.nextIno) - 2, sfs.ninos)
    ensures ok ==> Filling(sfs, current, open, data, tally + NamesOf(host, |host.entries|))
    ensures ok ==> Kept(sfs, current, current)
    ensures ok ==> current.nlinks == start + Subdirs(host.entries, |host.entries|) <= LN_NBLKS
    ensures ok ==>
      Paid(BillDir(host, |host.entries|, old(Reals(sfs.files))), old(sfs.nextIno) - 2, sfs.nextIno, sfs.files)
    ensures ok ==> Filled(current.contents, current.ino, up, host, |host.entries|, Finished(sfs.files, open))
    decreases host, 0, 2
  {
    hide Filling, WellFormed, Reals, BillNext, BillDir, Dots, Filled, Finished, NamesOf, NamesAt, Subdirs;
    ghost var seen := Reals(sfs.files);
    BillStarts(host, |host.entries|, seen);
    NamesStart(host, tally);
    FillingIs(sfs, current, open, data, tally);
    FilledStarts(current.contents, current.ino, up, host, Finished(sfs.files, open));
    var i := 0;
    while i < |host.entries|
      invariant i <= |host.entries| && Filling(sfs, current, open, data, tally + NamesOf(host, i))
      invariant Kept(sfs, current, current) && current.nlinks == start + Subdirs(host.entries, i)
      invariant Paid(BillDir(host, i, seen), old(sfs.nextIno) - 2, sfs.nextIno, sfs.files) && sfs.nextIno <= sfs.ninos
      invariant Filled(current.contents, current.ino, up, host, i, Finished(sfs.files, open))
    {
      BillTurn(host, i, seen);
      NamesTurn(host, i, tally);
      ok := Turn(sfs, current, up, host, i, open, data, tally + NamesOf(host, i), start);
      if !ok {
        return;
      }
      FillingIs(sfs, current, open, data, tally + NamesOf(host, i + 1));
      i := i + 1;
    }
    FewSubdirs(sfs, current, open, data, tally + NamesOf(host, i), up, host, i, Finished(sfs.files, open));
    ok := true;
  }

  lemma NamesStart(host: Host, tally: multiset<nat>)
    requires host.HostDir?
    ensures tally + NamesOf(host, 0) == tally && Subdirs(host.entries, 0) == 0
  {
  }

  lemma NamesTurn(host: Host, i: nat, tally: multiset<nat>)
    requires host.HostDir? && i < |host.entries|
    ensures tally + NamesOf(host, i) + NamesAt(host, i) == tally + NamesOf(host, i + 1)
  {
  }

  /** There are fewer subdirectories than blocks, so that the links are not too many for 16 bits. */
  lemma FewSubdirs(sfs: Sfs, g: CacheInode, open: set<CacheInode>, data: map<nat, seq<seq<Byte>>>,
      tally: multiset<nat>, up: nat, host: Host, n: nat, held: Held)
    requires Filling(sfs, g, open, data, tally) && host.HostDir? && n <= |host.entries|
    requires Filled(g.contents, g.ino, up, host, n, held)
    ensures 2 + Subdirs(host.entries, n) <= LN_NBLKS
  {
    hide Sfs.Valid, Dots, NamedAt, Ledger, Faithful;
    Within(sfs, g);
  }

  lemma SubdirsNext(host: Host, i: nat)
    requires host.HostDir? && i < |host.entries|
    ensures Subdirs(host.entries, i + 1) == Subdirs(host.entries, i) + if IsSubdir(host.entries[i]) then 1 else 0
  {
  }

  /** The names that one entry adds. */
  lemma NamesAdded(host: Host, i: nat, tally: multiset<nat>)
    requires host.HostDir? && i < |host.entries|
    ensures !Shown(host.entries[i]) ==> tally + NamesAt(host, i) == tally && !IsSubdir(host.entries[i])
    ensures Shown(host.entries[i]) ==>
      var h := host.entries[i].host;
      && (IsSubdir(host.entries[i]) <==> h.HostDir?)
      && (h.HostFile? ==> NamesAt(host, i) == multiset{h.realIno})
      && (h.HostDir? ==> NamesAt(host, i) == NamesOf(h, |h.entries|))
      && (h.HostLink? ==> tally + NamesAt(host, i) == tally)
  {
    hide NamesOf;
  }

  /** One turn of the loop: one more entry of the host is dealt with. */
  method Turn(sfs: Sfs, current: CacheInode, ghost up: nat, host: Host, i: nat, ghost open: set<CacheInode>,
      ghost data: map<nat, seq<seq<Byte>>>, ghost tally: multiset<nat>, ghost start: nat)
    returns (ok: bool)
    requires Filling(sfs, current, open, data, tally) && host.HostDir? && i < |host.entries| && WellFormed(host, data)
    requires Filled(current.contents, current.ino, up, host, i, Finished(sfs.files, open)) && sfs.nextIno <= sfs.ninos
    requires current.nlinks == start + Subdirs(host.entries, i) && start <= 2
    modifies sfs, sfs.files, sfs.tables
    ensures ok <==> Affordable(BillNext(host, i, Bill(0, old(Reals(sfs.files)))), old(sfs.nextIno), sfs.ninos)
    ensures ok ==> Filling(sfs, current, open, data, tally + NamesAt(host, i)) && Kept(sfs, current, current)
    ensures ok ==> sfs.nextIno <= sfs.ninos && current.nlinks == start + Subdirs(host.entries, i + 1)
    ensures ok ==> Paid(BillNext(host, i, Bill(0, old(Reals(sfs.files)))), old(sfs.nextIno), sfs.nextIno, sfs.files)
    ensures ok ==> Filled(current.contents, current.ino, up, host, i + 1, Finished(sfs.files, open))
    decreases host, 0, 1
  {
    hide Filling, WellFormed, Reals, BillNext, Filled, Named, Shown, Count, NamesAt, Subdirs, IsSubdir;
    FillingIs(sfs, current, open, data, tally);
    FilledBlocks(current.contents, current.ino, up, host, i, Finished(sfs.files, open));
    SubdirsNext(host, i);
    ghost var before, held := current.contents, Finished(sfs.files, open);
    EntryWellFormed(host, i, data);
    FewSubdirs(sfs, current, open, data, tally, up, host, i, held);
    ok := AddHost(sfs, current, host, i, open, data, tally);
    if ok {
      FilledStep(before, current.contents, current.ino, up, host, i, held, Finished(sfs.files, open));
    }
  }

  lemma FillingIs(sfs: Sfs, dir: CacheInode, open: set<CacheInode>, data: map<nat, seq<seq<Byte>>>,
      tally: multiset<nat>)
    requires Filling(sfs, dir, open, data, tally)
    ensures dir in sfs.files && dir in open && sfs.nextIno <= sfs.ninos
    ensures open <= sfs.files && forall g :: g in open ==> g.kind == DIR
  {
    Within(sfs, dir);
  }

  lemma BillStarts(host: Host, n: nat, seen: set<nat>)
    requires host.HostDir? && n <= |host.entries|
    ensures BillDir(host, 0, seen) == Some(Bill(2, seen))
    ensures BillDir(host, n, seen).Some? ==> BillDir(host, n, seen).value.cost >= 2
  {
    if BillDir(host, n, seen).Some? {
      BillGrows(host, 0, n, seen);
    }
  }

  /** If one turn of the loop cannot be paid, neither can the directory. */
  lemma BillTurn(host: Host, i: nat, seen: set<nat>)
    requires host.HostDir? && i < |host.entries| && BillDir(host, i, seen).Some?
    ensures var b, c := BillDir(host, i, seen).value, BillNext(host, i, Bill(0, BillDir(host, i, seen).value.seen));
      BillDir(host, i + 1, seen) == if c.None? then None else Some(Bill(b.cost + c.value.cost, c.value.seen))
    ensures BillDir(host, |host.entries|, seen).Some? ==>
      BillDir(host, i + 1, seen).Some?
      && BillDir(host, i + 1, seen).value.cost <= BillDir(host, |host.entries|, seen).value.cost
  {
    BillShift(host, i, BillDir(host, i, seen).value);
    hide BillNext;
    if BillDir(host, |host.entries|, seen).Some? {
      BillGrows(host, i + 1, |host.entries|, seen);
    }
  }

  lemma BillShift(host: Host, i: nat, b: Bill)
    requires host.HostDir? && i < |host.entries|
    ensures var c := BillNext(host, i, Bill(0, b.seen));
      BillNext(host, i, b) == if c.None? then None else Some(Bill(b.cost + c.value.cost, c.value.seen))
  {
    hide BillEntry;
  }

  lemma NoBill(host: Host, k: nat, seen: set<nat>)
    ensures host.Unreadable? ==> BillEntry(host, k, seen) == None
  {
  }

  lemma FilledBlocks(contents: seq<Content>, ino: nat, up: nat, host: Host, n: nat, held: Held)
    requires host.HostDir? && n <= |host.entries| && Filled(contents, ino, up, host, n, held)
    ensures |contents| == 2 + Count(host.entries, n)
  {
    hide NamedAt, Dots, Count;
  }

  lemma FilledStarts(contents: seq<Content>, ino: nat, up: nat, host: Host, held: Held)
    requires host.HostDir? && |contents| == 2 && Dots(contents, ino, up)
    ensures Filled(contents, ino, up, host, 0, held)
  {
  }

  /** One turn of the loop over the host's directory. */
  method AddHost(sfs: Sfs, current: CacheInode, host: Host, i: nat, ghost open: set<CacheInode>,
      ghost data: map<nat, seq<seq<Byte>>>, ghost tally: multiset<nat>)
    returns (ok: bool)
    requires Filling(sfs, current, open, data, tally) && host.HostDir? && i < |host.entries|
    requires WellFormed(host.entries[i].host, data)
    requires |current.contents| == 2 + Count(host.entries, i) && sfs.nextIno <= sfs.ninos
    modifies sfs, sfs.files, sfs.tables
    ensures ok <==> Affordable(BillNext(host, i, Bill(0, old(Reals(sfs.files)))), old(sfs.nextIno), sfs.ninos)
    ensures ok ==> Filling(sfs, current, open, data, tally + NamesAt(host, i)) && Kept(sfs, current, current)
    ensures ok ==> sfs.nextIno <= sfs.ninos
    ensures ok ==>
      current.nlinks == if IsSubdir(host.entries[i]) then (old(current.nlinks) + 1) % 0x1_0000 else old(current.nlinks)
    ensures ok ==> Paid(BillNext(host, i, Bill(0, old(Reals(sfs.files)))), old(sfs.nextIno), sfs.nextIno, sfs.files)
    ensures ok && Shown(host.entries[i]) ==>
      Extended(old(current.contents), current.contents, host.entries[i], current.ino, Finished(sfs.files, open))
    ensures ok && !Shown(host.entries[i]) ==> current.contents == old(current.contents)
    ensures host.entries[i].name != [] && host.entries[i].name[0] == 46 ==> ok && sfs.nextIno == old(sfs.nextIno)
    ensures ok && (host.entries[i].name == [] || host.entries[i].name[0] != 46) ==>
      |host.entries[i].name| <= 255 && !host.entries[i].host.Unreadable?
    decreases host, 0, 0
  {
    hide Sfs.Valid, Extended, WellFormed, Faithful, BillEntry, Reals, Count, Ledger, NamesOf, NamesAt, IsSubdir;
    NamesAdded(host, i, tally);
    var e := host.entries[i];
    ok := true;
    if e.name == DOT || e.name == DOTDOT {
      return;
    }
    if e.name != [] && e.name[0] == 46 {
      return;
    }
    if |e.name| >= FNAME_SIZE {
      return false;
    }
    match e.host
    case HostLink(_, _) =>
      ok := AddLink(sfs, current, e, open, data, tally);
    case Unreadable =>
      NoBill(e.host, 2 + Count(host.entries, i), Reals(sfs.files));
      ok := false;
    case HostDir(_, _) =>
      ok := AddDir(sfs, current, e, open, data, tally);
    case HostFile(_, _) =>
      ok := AddFile(sfs, current, e, open, data, tally);
    case Special =>
  }

  // ---------------------------------------------------------------- the finished image

  /** Free map, superblock, index blocks and inodes are all on the image. */
  ghost predicate OnImage(sfs: Sfs)
    reads sfs, sfs.files, sfs.tables
  {
    && sfs.Valid() && MapWritten(sfs.image, sfs.ninos, sfs.nextIno, sfs.unusedBlocks)
    && Flushed(sfs.image, sfs.tables, sfs.files)
  }

  /** Everything is on the image, the root directory holds the host directory, and all links are counted. */
  ghost predicate Imaged(sfs: Sfs, home: Host)
    reads sfs, sfs.files, sfs.tables
  {
    && OnImage(sfs) && sfs.root in sfs.files && sfs.root.kind == DIR && sfs.root.ino == BLKN_ROOT && home.HostDir?
    && sfs.root.size == FNAME_SIZE * |sfs.root.contents| && sfs.root.nlinks == 2 + Subdirs(home.entries, |home.entries|)
    && Ledger(sfs.files, {}, Tally(home))
    && Filled(sfs.root.contents, BLKN_ROOT, BLKN_ROOT, home, |home.entries|, Finished(sfs.files, {sfs.root}))
  }

  /**
   create_img on a fresh file system: it gets through exactly if the bill for the host directory can be paid.  Then
   everything is on the image, and the root directory holds the host directory, down to the last file.
   */
  method CreateImg(sfs: Sfs, home: Host, ghost data: map<nat, seq<seq<Byte>>>) returns (ok: bool)
    requires sfs.Valid() && sfs.files == {sfs.root} && sfs.root.kind == DIR && sfs.root.contents == []
    requires sfs.root.realIno == 0 && sfs.root.nlinks == 0 && sfs.root.size == 0
    requires home.HostDir? && WellFormed(home, data) && 0 !in data
    modifies sfs, sfs.files, sfs.tables
    ensures ok <==> Affordable(BillDir(home, |home.entries|, {0}), old(sfs.nextIno), sfs.ninos)
    ensures ok ==> Imaged(sfs, home) && Shows(sfs.root.contents, 1, home, Finished(sfs.files, {sfs.root}))
  {
    hide Shows, WellFormed, Filled, BillDir, Finished, Sfs.Valid, Flushed, MapWritten, NamesOf;
    RootIn(sfs);
    assert Reals(sfs.files) == {0};
    assert multiset{} + NamesOf(home, |home.entries|) == NamesOf(home, |home.entries|);
    ok := OpenDir(sfs, sfs.root, sfs.root, home, {sfs.root}, data, multiset{});
    if ok {
      assert {} + {sfs.root} == {sfs.root};
      Closed(sfs.files, {}, sfs.root, NamesOf(home, |home.entries|));
      RootIn(sfs);
      sfs.CloseSfs();
      FilledShows(sfs.root.contents, 1, 1, home, Finished(sfs.files, {sfs.root}));
    }
  }

  lemma RootIn(sfs: Sfs)
    requires sfs.Valid()
    ensures sfs.root in sfs.files && sfs.root.ino == BLKN_ROOT
  {
    FileIs(sfs.files, sfs.tables, sfs.root, sfs.role, sfs.image, sfs.root);
  }

  /** What is held is what the inodes hold. */
  ghost predicate Current(held: Held, files: set<CacheInode>)
    reads files
  {
    forall g :: g in held ==> g in files && held[g] == BodyOf(g)
  }

  lemma FinishedIsCurrent(files: set<CacheInode>, open: set<CacheInode>)
    ensures Current(Finished(files, open), files)
  {
  }

  /**
   What the kernel reads of a file made of a host file: the host's bytes, padded to blocks, as far as it can
   reach.
   */
  lemma FileReadsBack(sfs: Sfs, g: CacheInode, host: Host, up: nat, held: Held, i: nat)
    requires OnImage(sfs) && Current(held, sfs.files) && g in held && Made(g, host, up, held) && host.HostFile?
    requires i < |host.chunks|
    ensures g.ino in sfs.image && sfs.image[g.ino].Node?
    ensures sfs.image[g.ino].inode.kind == FILE && sfs.image[g.ino].inode.blocks == |host.chunks|
    ensures sfs.image[g.ino].inode.size == Total(host.chunks) && FullBlocks(host.chunks)
    ensures |host.chunks[i]| <= BLKSIZE
    ensures var n := KernelBlockAt(sfs.image, sfs.image[g.ino].inode, i);
      if i < L1_NBLKS then n.Some? && n.value in sfs.image && sfs.image[n.value] == Bytes(Padded(host.chunks[i]))
      else n.None?
  {
    hide Sfs.Valid, MapWritten, Flushed, Padded, FreeBit, KernelBlockAt, BlockAt;
    sfs.KnownCounts(g);
    sfs.ReadsBack(g, i);
  }

  /** And of a link: its target. */
  lemma LinkReadsBack(sfs: Sfs, g: CacheInode, host: Host, up: nat, held: Held)
    requires OnImage(sfs) && Current(held, sfs.files) && g in held && Made(g, host, up, held) && host.HostLink?
    ensures g.ino in sfs.image && sfs.image[g.ino].Node?
    ensures sfs.image[g.ino].inode.kind == LINK && sfs.image[g.ino].inode.blocks == 1 && host.target.Some?
    ensures |host.target.value| <= BLKSIZE && sfs.image[g.ino].inode.size == |host.target.value|
    ensures sfs.image[g.ino].inode.nlinks == 1
    ensures var n := KernelBlockAt(sfs.image, sfs.image[g.ino].inode, 0);
      n.Some? && n.value in sfs.image && sfs.image[n.value] == Bytes(Padded(host.target.value))
    ensures |Padded(host.target.value)| == 4096 && Padded(host.target.value)[..|host.target.value|] == host.target.value
    ensures forall k :: |host.target.value| <= k < 4096 ==> Padded(host.target.value)[k] == 0
  {
    hide Sfs.Valid, MapWritten, Flushed, Padded, FreeBit, KernelBlockAt, BlockAt;
    sfs.KnownCounts(g);
    sfs.ReadsBack(g, 0);
    PaddedIs(host.target.value);
  }
}
