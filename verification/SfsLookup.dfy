/**
 How the kernel finds a file on an image (lab8/kern/fs/sfs/sfs_inode.c), and that on an image made by
 lab8/tools/mksfs.c it finds what the host had under that path.
 */
module SfsLookup {
  import opened Words
  import opened SfsLayout
  import opened SfsInode
  import opened Mksfs
  import opened HostTree
  import opened MksfsTree

  const SLASH: Byte := 47

  /** The number of an inode, -E_NOENT, or a panic. */
  datatype Answer = Found(ino: nat) | NoEntry | Crash

  /** sfs_block_inuse, which panics outside the file system. */
  predicate InUse(image: map<nat, Content>, n: nat) {
    && n != 0 && BLKN_SUPER in image && image[BLKN_SUPER].Super? && n < image[BLKN_SUPER].blocks
    && !FreeBit(image, n)
  }

  /** sfs_load_inode: an inode in use, with links, of a kind the kernel has operations for. */
  function Load(image: map<nat, Content>, n: nat): Answer {
    if !InUse(image, n) || n !in image || !image[n].Node? || image[n].inode.nlinks == 0 || image[n].inode.kind == LINK
    then Crash
    else Found(n)
  }

  /** sfs_dirent_search_nolock from slot i on: every slot is a block with one entry. */
  function Search(image: map<nat, Content>, node: Inode, name: Name, i: nat): Answer
    decreases if i < node.blocks then node.blocks - i else 0
  {
    if i >= node.blocks then NoEntry
    else match KernelBlockAt(image, node, i)
      case None => Crash
      case Some(n) =>
        if !InUse(image, n) || n !in image || !image[n].Bytes? || |image[n].data| != BLKSIZE then Crash
        else if EntryIno(image[n].data) != 0 && EntryName(image[n].data) == name then Found(EntryIno(image[n].data))
        else Search(image, node, name, i + 1)
  }

  /** vop_lookup: only directories have it, and sfs_lookup takes the whole path it is given as one name. */
  function Lookup(image: map<nat, Content>, ino: nat, name: Name): Answer {
    if ino !in image || !image[ino].Node? || image[ino].inode.kind != DIR then Crash
    else if name == [] || name[0] == SLASH || |name| >= FNAME_SIZE then Crash
    else match Search(image, image[ino].inode, name, 0)
      case Found(n) => Load(image, n)
      case other => other
  }

  /** One lookup after the other. */
  function Walk(image: map<nat, Content>, ino: nat, path: seq<Name>): Answer
    decreases |path|
  {
    if path == [] then Found(ino)
    else match Lookup(image, ino, path[0])
      case Found(n) => Walk(image, n, path[1..])
      case other => other
  }

  // ---------------------------------------------------------------- the slots of a directory

  /** What the kernel makes of a name. */
  function Cut(name: Name): Name {
    if |name| <= 252 then name else name[..252]
  }

  /** A name as hosts have them. */
  ghost predicate Plain(name: Name) {
    name != [] && forall i :: 0 <= i < |name| ==> name[i] != 0 && name[i] != SLASH
  }

  ghost predicate PlainNames(host: Host) {
    host.HostDir? ==> forall i :: 0 <= i < |host.entries| ==> PlainAt(host.entries[i])
  }

  ghost predicate PlainAt(e: HostEntry)
    decreases e
  {
    Plain(e.name) && PlainNames(e.host)
  }

  /** Slot i can be read, and names `ino` with what the kernel makes of `name`. */
  ghost predicate SlotNames(image: map<nat, Content>, node: Inode, i: nat, ino: nat, name: Name) {
    var n := KernelBlockAt(image, node, i);
    && n.Some? && InUse(image, n.value) && n.value in image
    && image[n.value].Bytes? && |image[n.value].data| == BLKSIZE
    && EntryIno(image[n.value].data) == ino && EntryName(image[n.value].data) == Cut(name)
  }

  ghost predicate SlotReads(image: map<nat, Content>, node: Inode, i: nat, name: Name) {
    exists ino :: SlotNames(image, node, i, ino, name)
  }

  /** Inodes of the builder are in use, and their numbers fit. */
  lemma InodeInUse(sfs: Sfs, g: CacheInode)
    requires OnImage(sfs) && g in sfs.files
    ensures InUse(sfs.image, g.ino) && 0 < g.ino < 0x1_0000_0000
    ensures g.ino in sfs.image && sfs.image[g.ino] == Node(g.Record())
  {
    hide FreeBit, CacheInode.Shape, Tabled, Apart, AllSettled, Buckets;
    Names(sfs.files, sfs.tables, sfs.root, sfs.role, sfs.image, FirstIno(sfs.ninos), sfs.nextIno);
    Numbers(sfs.ninos, g.ino);
  }

  /** A block with an entry is read as one. */
  lemma EntryReads(sfs: Sfs, f: CacheInode, i: nat, ino: nat, name: Name)
    requires OnImage(sfs) && f in sfs.files && i < |f.contents| && i < L1_NBLKS
    requires EntryFor(f.contents[i], ino, name) && (forall k :: 0 <= k < |name| ==> name[k] != 0) && ino < 0x1_0000_0000
    ensures SlotNames(sfs.image, f.Record(), i, ino, name)
  {
    hide Sfs.Valid, Flushed, FreeBit, FreeBits, KernelBlockAt, BlockAt, EntryIno, EntryName, EntryBlock, NameField;
    sfs.KnownCounts(f);
    sfs.ReadsBack(f, i);
    var stale :| |stale| == FNAME_SIZE && f.contents[i] == Bytes(EntryBlock(ino, NameField(name, stale)));
    EntryReadsBack(ino, name, stale);
  }

  /** The search passes the slots with other names. */
  lemma {:induction false} SearchPasses(image: map<nat, Content>, node: Inode, names: seq<Name>, name: Name, i: nat,
      k: nat)
    requires i <= k <= node.blocks && k <= |names|
    requires forall j :: i <= j < k ==> SlotReads(image, node, j, names[j]) && Cut(names[j]) != name
    ensures Search(image, node, name, i) == Search(image, node, name, k)
    decreases k - i
  {
    hide KernelBlockAt, EntryIno, EntryName, Cut, InUse;
    if i < k {
      assert SlotReads(image, node, i, names[i]);
      SearchPasses(image, node, names, name, i + 1, k);
    }
  }

  /** And stops at the one it looks for, or where the kernel cannot read on. */
  lemma SearchStops(image: map<nat, Content>, node: Inode, entry: Name, name: Name, k: nat, ino: nat)
    requires k < node.blocks && k < L1_NBLKS && SlotNames(image, node, k, ino, entry) && Cut(entry) == name && ino > 0
    ensures Search(image, node, name, k) == Found(ino)
  {
    hide EntryIno, EntryName, Cut, KernelBlockAt, InUse;
  }

  lemma SearchFails(image: map<nat, Content>, node: Inode, name: Name, k: nat)
    requires k == node.blocks || L1_NBLKS <= k <= node.blocks
    ensures Search(image, node, name, k) == if k == node.blocks then NoEntry else Crash
  {
    hide EntryIno, EntryName, InUse;
  }

  /** The names in a directory's slots. */
  function SlotNamesOf(host: Host): (names: seq<Name>)
    requires host.HostDir?
    ensures |names| == 2 + Count(host.entries, |host.entries|)
    ensures names[0] == DOT && names[1] == DOTDOT
    ensures forall j :: 2 <= j < |names| ==> names[j] == host.entries[Source(host.entries, |host.entries|, j - 2)].name
  {
    var n := Count(host.entries, |host.entries|);
    [DOT, DOTDOT] + seq(n, j requires 0 <= j < n => host.entries[Source(host.entries, |host.entries|, j)].name)
  }

  /** The inode that a block names. */
  lemma NamedBy(c: Content, e: HostEntry, up: nat, held: Held) returns (g: CacheInode)
    requires Named(c, e, up, held)
    ensures g in held && EntryFor(c, g.ino, e.name) && Made(g, e.host, up, held)
  {
    hide EntryFor, Made;
    g :| g in held && EntryFor(c, g.ino, e.name) && Made(g, e.host, up, held);
  }

  lemma DotsAre(contents: seq<Content>, ino: nat, up: nat, host: Host, held: Held)
    requires host.HostDir? && Filled(contents, ino, up, host, |host.entries|, held)
    ensures |contents| == 2 + Count(host.entries, |host.entries|)
    ensures EntryFor(contents[0], ino, DOT) && EntryFor(contents[1], up, DOTDOT)
  {
    hide NamedAt, EntryFor, Count;
  }

  /** A directory on the image that holds a host directory; `up` is the number of the one above. */
  ghost predicate Holds(sfs: Sfs, f: CacheInode, up: nat, host: Host, held: Held)
    reads sfs, sfs.files, sfs.tables
  {
    && OnImage(sfs) && f in sfs.files && f.kind == DIR && up < 0x1_0000_0000
    && Current(held, sfs.files) && host.HostDir? && PlainNames(host)
    && Filled(f.contents, f.ino, up, host, |host.entries|, held)
  }

  /** Inode g was made of entry r, and its slot names it. */
  ghost predicate SlotHas(image: map<nat, Content>, node: Inode, ino: nat, host: Host, r: nat, held: Held,
      g: CacheInode) {
    && host.HostDir? && r < |host.entries| && g in held && Made(g, host.entries[r].host, ino, held)
    && var slot := 2 + Count(host.entries, r);
    && slot < node.blocks && (slot < L1_NBLKS ==> SlotNames(image, node, slot, g.ino, host.entries[r].name))
  }

  /** The slot of an entry names its inode. */
  lemma EntrySlot(sfs: Sfs, f: CacheInode, up: nat, host: Host, held: Held, r: nat) returns (g: CacheInode)
    requires Holds(sfs, f, up, host, held)
    requires r < |host.entries| && Shown(host.entries[r])
    ensures SlotHas(sfs.image, f.Record(), f.ino, host, r, held, g)
  {
    hide MapWritten, Flushed, Sfs.Valid, EntryFor, Made, Named, Filled, Count, SlotNames;
    FilledShows(f.contents, f.ino, up, host, held);
    assert HasBlock(f.contents, f.ino, host.entries, r, held);
    var slot := 2 + Count(host.entries, r);
    g := NamedBy(f.contents[slot], host.entries[r], f.ino, held);
    assert PlainAt(host.entries[r]);
    CountsAre(sfs, f);
    InodeInUse(sfs, g);
    if slot < L1_NBLKS {
      EntryReads(sfs, f, slot, g.ino, host.entries[r].name);
    }
  }

  /** Every slot within the kernel's reach is read with the name it was made for. */
  ghost predicate SlotsAre(image: map<nat, Content>, node: Inode, host: Host) {
    && host.HostDir? && node.blocks == |SlotNamesOf(host)|
    && forall j :: 0 <= j < node.blocks && j < L1_NBLKS ==> SlotReads(image, node, j, SlotNamesOf(host)[j])
  }

  lemma SlotsRead(sfs: Sfs, f: CacheInode, up: nat, host: Host, held: Held)
    requires Holds(sfs, f, up, host, held)
    ensures f.ino in sfs.image && sfs.image[f.ino] == Node(f.Record()) && SlotsAre(sfs.image, f.Record(), host)
    ensures SlotNames(sfs.image, f.Record(), 0, f.ino, DOT) && SlotNames(sfs.image, f.Record(), 1, up, DOTDOT)
  {
    hide MapWritten, Flushed, Sfs.Valid, EntryFor, Filled, Shown, SlotNames, Current, PlainNames, Made, SlotNamesOf;
    InodeInUse(sfs, f);
    DotsAre(f.contents, f.ino, up, host, held);
    EntryReads(sfs, f, 0, f.ino, DOT);
    EntryReads(sfs, f, 1, up, DOTDOT);
    CountsAre(sfs, f);
    forall j | 2 <= j < |f.contents| && j < L1_NBLKS
      ensures SlotReads(sfs.image, f.Record(), j, SlotNamesOf(host)[j])
    {
      var g := EntrySlot(sfs, f, up, host, held, Source(host.entries, |host.entries|, j - 2));
    }
  }

  lemma CountsAre(sfs: Sfs, f: CacheInode)
    requires OnImage(sfs) && f in sfs.files
    ensures f.Record().blocks == |f.contents|
  {
    hide Buckets, Tabled, Apart, AllSettled, CacheInode.Pointers, CacheInode.Holds;
    FileIs(sfs.files, sfs.tables, sfs.root, sfs.role, sfs.image, f);
  }

  // ---------------------------------------------------------------- one lookup

  /**
   The entry belongs on the image and is read with that name there: it does not begin with a dot, and it is a file,
   a directory or a link.
   */
  ghost predicate ReadUnder(e: HostEntry, name: Name) {
    && e.name != [] && e.name[0] != 46 && (e.host.HostFile? || e.host.HostDir? || e.host.HostLink?)
    && Cut(e.name) == name
  }

  /** Entry i is read with that name, and no entry before it is. */
  ghost predicate First(host: Host, i: nat, name: Name) {
    && host.HostDir? && i < |host.entries| && ReadUnder(host.entries[i], name)
    && forall k :: 0 <= k < i ==> !ReadUnder(host.entries[k], name)
  }

  lemma LoadIs(sfs: Sfs, g: CacheInode)
    requires OnImage(sfs) && g in sfs.files
    ensures Load(sfs.image, g.ino) == if g.kind == LINK || g.nlinks == 0 then Crash else Found(g.ino)
  {
    hide Sfs.Valid, MapWritten, Flushed, InUse;
    InodeInUse(sfs, g);
  }

  /** The slots before that of the first entry read with a name are read with others. */
  lemma BeforeFirst(host: Host, i: nat, name: Name, j: nat)
    requires First(host, i, name) && j < 2 + Count(host.entries, i)
    ensures 2 + Count(host.entries, i) < |SlotNamesOf(host)| && Cut(SlotNamesOf(host)[j]) != name
  {
    hide Count, Source, Cut;
    CountGrows(host.entries, i, |host.entries|);
    CutStarts(host.entries[i].name);
    if j < 2 {
      CutDots();
    } else {
      SourceBefore(host.entries, i, |host.entries|, j - 2);
      CutStarts(SlotNamesOf(host)[j]);
    }
  }

  lemma CutStarts(name: Name)
    ensures |Cut(name)| <= 252 && Cut(Cut(name)) == Cut(name)
    ensures if name == [] then Cut(name) == [] else Cut(name) != [] && Cut(name)[0] == name[0]
  {
  }

  lemma CutDots()
    ensures Cut(DOT) == DOT && Cut(DOTDOT) == DOTDOT
  {
  }

  lemma SourceBefore(entries: seq<HostEntry>, i: nat, n: nat, j: nat)
    requires i < n <= |entries| && j < Count(entries, i) <= Count(entries, n)
    ensures Source(entries, n, j) < i && Shown(entries[Source(entries, n, j)])
  {
    hide Shown;
    var r := Source(entries, n, j);
    if i < r {
      CountGrows(entries, i, r);
    }
  }

  /** Looking for the name gets inode n, unless the slot of entry i is beyond the kernel's reach. */
  ghost predicate Finds(image: map<nat, Content>, ino: nat, name: Name, host: Host, i: nat, n: nat) {
    && host.HostDir? && i < |host.entries|
    && Lookup(image, ino, name) == if 2 + Count(host.entries, i) < 1036 then Load(image, n) else Crash
  }

  /**
   A name finds the first entry read with it, if the slot is within the kernel's reach and the inode can be
   loaded.
   */
  lemma LookupFinds(sfs: Sfs, f: CacheInode, up: nat, host: Host, held: Held, i: nat, name: Name)
    returns (g: CacheInode)
    requires Holds(sfs, f, up, host, held)
    requires First(host, i, name)
    ensures SlotHas(sfs.image, f.Record(), f.ino, host, i, held, g) && g in sfs.files
    ensures Finds(sfs.image, f.ino, name, host, i, g.ino)
    ensures Load(sfs.image, g.ino) == if g.kind == LINK || g.nlinks == 0 then Crash else Found(g.ino)
  {
    hide MapWritten, Flushed, Sfs.Valid, EntryFor, Filled, SlotNames, Made, Named, SlotNamesOf, Count, Search, Load,
      SlotReads, InUse, Cut;
    var slot, node := 2 + Count(host.entries, i), f.Record();
    assert PlainAt(host.entries[i]);
    CutStarts(host.entries[i].name);
    g := EntrySlot(sfs, f, up, host, held, i);
    LoadIs(sfs, g);
    InodeInUse(sfs, g);
    SlotsRead(sfs, f, up, host, held);
    forall j | 0 <= j < slot
      ensures Cut(SlotNamesOf(host)[j]) != name
    {
      BeforeFirst(host, i, name, j);
    }
    var k := if slot < L1_NBLKS then slot else L1_NBLKS;
    SearchPasses(sfs.image, node, SlotNamesOf(host), name, 0, k);
    if slot < L1_NBLKS {
      SearchStops(sfs.image, node, host.entries[i].name, name, slot, g.ino);
    } else {
      SearchFails(sfs.image, node, name, k);
    }
  }

  /** The first two entries: the directory itself and the one above. */
  lemma LookupDots(sfs: Sfs, f: CacheInode, p: CacheInode, host: Host, held: Held)
    requires Holds(sfs, f, p.ino, host, held) && p in sfs.files
    ensures DOT == [46] && Lookup(sfs.image, f.ino, DOT) == Load(sfs.image, f.ino)
    ensures DOTDOT == [46, 46] && Lookup(sfs.image, f.ino, DOTDOT) == Load(sfs.image, p.ino)
  {
    hide MapWritten, Flushed, Sfs.Valid, Filled, SlotNames, Search, Load, InUse, PlainNames;
    InodeInUse(sfs, f);
    InodeInUse(sfs, p);
    SlotsRead(sfs, f, p.ino, host, held);
    SearchStops(sfs.image, f.Record(), DOT, DOT, 0, f.ino);
    SearchPasses(sfs.image, f.Record(), SlotNamesOf(host), DOTDOT, 0, 1);
    SearchStops(sfs.image, f.Record(), DOTDOT, DOTDOT, 1, p.ino);
  }

  /** No slot of the directory is read with that name. */
  ghost predicate Absent(host: Host, name: Name) {
    && host.HostDir? && name != [46] && name != [46, 46]
    && forall k :: 0 <= k < |host.entries| ==> !ReadUnder(host.entries[k], name)
  }

  /** A name that no slot is read with is not there; in a directory beyond the kernel's reach, looking for it panics. */
  lemma LookupMisses(sfs: Sfs, f: CacheInode, up: nat, host: Host, held: Held, name: Name)
    requires name != [] && name[0] != 47 && |name| < 256 && Absent(host, name)
    requires Holds(sfs, f, up, host, held)
    ensures Lookup(sfs.image, f.ino, name) == if |f.contents| <= 1036 then NoEntry else Crash
  {
    hide MapWritten, Flushed, Sfs.Valid, Filled, SlotNames, Search, Load, InUse, PlainNames;
    SlotsRead(sfs, f, up, host, held);
    CountsAre(sfs, f);
    var k := if |f.contents| <= L1_NBLKS then |f.contents| else L1_NBLKS;
    SearchPasses(sfs.image, f.Record(), SlotNamesOf(host), name, 0, k);
    SearchFails(sfs.image, f.Record(), name, k);
  }

  /** Every name is one of these. */
  lemma FirstOrAbsent(host: Host, name: Name)
    requires host.HostDir?
    ensures name == [46] || name == [46, 46] || Absent(host, name) || exists i: nat :: First(host, i, name)
  {
    hide ReadUnder;
    if k :| 0 <= k < |host.entries| && ReadUnder(host.entries[k], name) {
      var i := 0;
      while i < k && !ReadUnder(host.entries[i], name)
        invariant i <= k
        invariant forall m :: 0 <= m < i ==> !ReadUnder(host.entries[m], name)
      {
        i := i + 1;
      }
      assert First(host, i, name);
    }
  }

  /** sfs_lookup does not take paths apart: one of several components is never found. */
  lemma PathsAreNotTakenApart(sfs: Sfs, f: CacheInode, up: nat, host: Host, held: Held, path: Name)
    requires SLASH in path
    requires Holds(sfs, f, up, host, held)
    ensures !Lookup(sfs.image, f.ino, path).Found?
  {
    hide MapWritten, Flushed, Sfs.Valid, Filled, Search, Load, InUse, OnImage;
    if path[0] != SLASH && |path| < FNAME_SIZE {
      forall k | 0 <= k < |host.entries|
        ensures !ReadUnder(host.entries[k], path)
      {
        assert PlainAt(host.entries[k]);
      }
      LookupMisses(sfs, f, up, host, held, path);
    }
  }

  // ---------------------------------------------------------------- one lookup after the other

  /** Entry i of the host directory has that name, and the kernel can get to it. */
  ghost predicate Step(host: Host, i: nat, name: Name) {
    && First(host, i, name) && host.entries[i].name == name && name != [] && name[0] != 46
    && 2 + Count(host.entries, i) < 1036 && (host.entries[i].host.HostFile? || host.entries[i].host.HostDir?)
  }

  /** What the host has under a path. */
  ghost predicate Path(host: Host, path: seq<Name>, target: Host)
    decreases |path|
  {
    if path == [] then host == target
    else exists i: nat :: Step(host, i, path[0]) && Path(host.entries[i].host, path[1..], target)
  }

  // ---------------------------------------------------------------- links

  /** A file with so many names that its 16-bit link count is 0. */
  ghost predicate Wrapped(target: Host, tally: multiset<nat>) {
    target.HostFile? && tally[target.realIno] % 0x1_0000 == 0
  }

  ghost predicate Linked(files: set<CacheInode>)
    reads files
  {
    forall g :: g in files ==> g.nlinks != 0
  }

  /** No file has 65536 names, or a multiple. */
  ghost predicate NoneWrapped(tally: multiset<nat>) {
    forall r :: r in tally ==> tally[r] % 0x1_0000 != 0
  }

  /** All inodes of the image have links exactly if no file has 65536 names, or a multiple. */
  lemma LinkedUnlessWrapped(sfs: Sfs, home: Host)
    requires Imaged(sfs, home)
    ensures Linked(sfs.files) <==> NoneWrapped(Tally(home))
  {
    hide OnImage, Filled, Tally, Subdirs;
    var tally := Tally(home);
    forall g | g in sfs.files
      ensures g.nlinks == 0 <==> g.kind == FILE && g.realIno in tally && tally[g.realIno] % 0x1_0000 == 0
    {
      assert LinkedTo(g, {}, tally);
      assert g.kind == FILE ==> g.realIno in FileReals(sfs.files);
    }
    if r :| r in tally && tally[r] % 0x1_0000 == 0 {
      assert r in FileReals(sfs.files);
    }
  }

  /** Whether what was made of an object has links. */
  lemma LinksOf(files: set<CacheInode>, tally: multiset<nat>, g: CacheInode, host: Host, up: nat, held: Held)
    requires CountsRight(files, {}, tally) && g in files
    requires g in held && Made(g, host, up, held)
    ensures g.nlinks == 0 <==> Wrapped(host, tally)
  {
    hide Filled;
    assert LinkedTo(g, {}, tally);
  }

  /** Looking for the name gets to the inode that was made of entry i, unless its links are counted as none. */
  ghost predicate StepsTo(image: map<nat, Content>, ino: nat, host: Host, i: nat, name: Name, tally: multiset<nat>,
      held: Held, g: CacheInode) {
    && host.HostDir? && i < |host.entries| && Made(g, host.entries[i].host, ino, held)
    && Lookup(image, ino, name) == if Wrapped(host.entries[i].host, tally) then Crash else Found(g.ino)
  }

  /** One step of a path. */
  lemma StepFound(sfs: Sfs, f: CacheInode, up: nat, host: Host, held: Held, i: nat, name: Name,
      tally: multiset<nat>)
    returns (g: CacheInode)
    requires Step(host, i, name) && CountsRight(sfs.files, {}, tally)
    requires Holds(sfs, f, up, host, held)
    ensures g in held && g in sfs.files && StepsTo(sfs.image, f.ino, host, i, name, tally, held, g)
  {
    hide OnImage, Current, PlainNames, Filled, Made, Lookup, Load, SlotNames, Count, Cut, CountsRight, Wrapped;
    g := LookupFinds(sfs, f, up, host, held, i, name);
    MadeKind(g, host.entries[i].host, f.ino, held);
    LinksOf(sfs.files, tally, g, host.entries[i].host, f.ino, held);
  }

  lemma MadeKind(g: CacheInode, host: Host, up: nat, held: Held)
    requires g in held && Made(g, host, up, held)
    ensures g.kind == LINK <==> host.HostLink?
  {
    hide Filled;
  }

  /** A directory made of a host directory holds it. */
  lemma MadeHolds(sfs: Sfs, g: CacheInode, host: Host, up: nat, held: Held)
    requires OnImage(sfs) && Current(held, sfs.files) && g in held && up < 0x1_0000_0000 && host.HostDir?
    requires PlainNames(host)
    requires Made(g, host, up, held)
    ensures Holds(sfs, g, up, host, held)
  {
    hide OnImage, PlainNames, Filled;
  }

  /**
   Walking down a path of the host, the kernel gets to what was made of the object there; but it panics at a file with
   so many names that the links are counted as none.
   */
  lemma {:induction false} PathFound(sfs: Sfs, f: CacheInode, up: nat, host: Host, held: Held, path: seq<Name>,
      target: Host, tally: multiset<nat>)
    returns (g: CacheInode, above: nat)
    requires path != [] && Path(host, path, target) && CountsRight(sfs.files, {}, tally)
    requires Holds(sfs, f, up, host, held)
    ensures Walk(sfs.image, f.ino, path) == if Wrapped(target, tally) then Crash else Found(g.ino)
    ensures g in held && Made(g, target, above, held)
    decreases |path|
  {
    hide OnImage, Filled, Made, Lookup, PlainNames, Step, Current, CountsRight;
    var i := PathStep(host, path, target);
    var next, child := path[1..], host.entries[i].host;
    g := StepFound(sfs, f, up, host, held, i, path[0], tally);
    above := f.ino;
    if next != [] {
      InodeInUse(sfs, f);
      var k := PathStep(child, next, target);
      MadeHolds(sfs, g, child, f.ino, held);
      g, above := PathFound(sfs, g, f.ino, child, held, next, target, tally);
    }
  }

  lemma PathStep(host: Host, path: seq<Name>, target: Host) returns (i: nat)
    requires path != [] && Path(host, path, target)
    ensures host.HostDir? && i < |host.entries| && Step(host, i, path[0])
    ensures Path(host.entries[i].host, path[1..], target) && (PlainNames(host) ==> PlainNames(host.entries[i].host))
  {
    i :| Step(host, i, path[0]) && Path(host.entries[i].host, path[1..], target);
    assert PlainNames(host) ==> PlainAt(host.entries[i]);
  }

  // ---------------------------------------------------------------- the image that the tool makes

  /** The kernel reads block i of a file as the host's bytes. */
  ghost predicate ReadsAs(image: map<nat, Content>, node: Inode, i: nat, chunk: seq<Byte>) {
    var n := KernelBlockAt(image, node, i);
    if i >= 1036 then n.None?
    else
      && n.Some? && InUse(image, n.value) && n.value in image
      && |chunk| <= BLKSIZE && image[n.value] == Bytes(Padded(chunk))
  }

  /** An inode of a file with these bytes: its size is theirs, and all blocks but the last are full. */
  ghost predicate ReadsFile(image: map<nat, Content>, node: Inode, chunks: seq<seq<Byte>>) {
    && node.kind == FILE && node.blocks == |chunks| <= LN_NBLKS && node.size == Total(chunks)
    && Chunks(chunks) && FullBlocks(chunks)
    && forall i :: 0 <= i < |chunks| ==> ReadsAs(image, node, i, chunks[i])
  }

  /** The walk has found a file with these bytes. */
  ghost predicate FindsFile(image: map<nat, Content>, a: Answer, target: Host) {
    && a.Found? && a.ino in image && image[a.ino].Node?
    && target.HostFile? && ReadsFile(image, image[a.ino].inode, target.chunks)
  }

  /**
   For every file of the host that the kernel can get to, whatever its path: the kernel finds it from the root of the
   finished image, and its inode and blocks are those of the host's file; but it panics if the file has 65536 names, or
   a multiple.
   */
  lemma HostFileFound(sfs: Sfs, home: Host, path: seq<Name>, target: Host)
    requires path != [] && Path(home, path, target) && target.HostFile? && PlainNames(home)
    requires Imaged(sfs, home)
    ensures Wrapped(target, Tally(home)) ==> Walk(sfs.image, BLKN_ROOT, path) == Crash
    ensures !Wrapped(target, Tally(home)) ==> FindsFile(sfs.image, Walk(sfs.image, BLKN_ROOT, path), target)
  {
    hide OnImage, Filled, Path, Walk, Finished, Current, PlainNames, ReadsFile, CountsRight, Unique, Tallied, Tally,
      Wrapped, Subdirs, Made;
    var held := Finished(sfs.files, {sfs.root});
    FinishedIsCurrent(sfs.files, {sfs.root});
    var g, above := PathFound(sfs, sfs.root, BLKN_ROOT, home, held, path, target, Tally(home));
    FileIsMade(sfs, g, target, above, held);
  }

  lemma FileIsMade(sfs: Sfs, g: CacheInode, host: Host, up: nat, held: Held)
    requires OnImage(sfs) && Current(held, sfs.files) && g in held && Made(g, host, up, held) && host.HostFile?
    ensures g.ino in sfs.image && sfs.image[g.ino] == Node(g.Record())
    ensures ReadsFile(sfs.image, g.Record(), host.chunks)
  {
    hide Sfs.Valid, MapWritten, Flushed, KernelBlockAt, Padded, InUse, Total, FullBlocks;
    InodeInUse(sfs, g);
    CountsAre(sfs, g);
    sfs.KnownCounts(g);
    forall i | 0 <= i < |host.chunks|
      ensures ReadsAs(sfs.image, g.Record(), i, host.chunks[i])
    {
      if i < L1_NBLKS {
        BlockInUse(sfs, g, i);
      }
      FileReadsBack(sfs, g, host, up, held, i);
    }
  }

  lemma BlockInUse(sfs: Sfs, g: CacheInode, i: nat)
    requires OnImage(sfs) && g in sfs.files && i < |g.contents| && i < L1_NBLKS
    ensures KernelBlockAt(sfs.image, g.Record(), i).Some?
    ensures InUse(sfs.image, KernelBlockAt(sfs.image, g.Record(), i).value)
  {
    hide Sfs.Valid, Flushed, FreeBit, FreeBits, KernelBlockAt, BlockAt;
    sfs.KnownCounts(g);
    sfs.ReadsBack(g, i);
  }
}
