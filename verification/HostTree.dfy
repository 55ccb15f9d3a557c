/**
 What lab8/tools/mksfs.c is given and what it should make of it: host directory trees as readdir, lstat,
 read and readlink report them, the numbers that they take on the image, and when a set of inodes holds a tree.
 */
module HostTree {
  import opened Words
  import opened SfsLayout
  import opened SfsInode
  import opened Mksfs

  type Name = seq<Byte>

  const DOT: Name := [46]
  const DOTDOT: Name := [46, 46]

  /**
   `realIno` is the inode number on the host; Unreadable is what open fails on, Special what is neither file,
   directory nor link.
   */
  datatype Host =
    | HostDir(realIno: nat, entries: seq<HostEntry>)
    | HostFile(realIno: nat, chunks: seq<seq<Byte>>)
    | HostLink(realIno: nat, target: Option<seq<Byte>>)
    | Special
    | Unreadable

  datatype HostEntry = HostEntry(name: Name, host: Host)

  /**
   Reads return at least a byte and at most a block, readlink at most a block.  Inode numbers tell files from other
   things: `data` is what the files hold, under all their names.
   */
  ghost predicate WellFormed(host: Host, data: map<nat, seq<seq<Byte>>>) {
    match host
    case HostDir(r, entries) => r !in data && forall i :: 0 <= i < |entries| ==> WellFormed(entries[i].host, data)
    case HostFile(r, chunks) => Chunks(chunks) && r in data && data[r] == chunks
    case HostLink(r, target) => r !in data && (target.Some? ==> |target.value| <= BLKSIZE)
    case _ => true
  }

  lemma EntryWellFormed(host: Host, i: nat, data: map<nat, seq<seq<Byte>>>)
    requires host.HostDir? && WellFormed(host, data) && i < |host.entries|
    ensures WellFormed(host.entries[i].host, data)
  {
  }

  ghost predicate Chunks(chunks: seq<seq<Byte>>) {
    forall i :: 0 <= i < |chunks| ==> 0 < |chunks[i]| <= BLKSIZE
  }

  /** An entry for the image: its name does not begin with a dot, and it is a file, a directory or a link. */
  predicate Shown(e: HostEntry) {
    && (e.name == [] || e.name[0] != 46)
    && (e.host.HostFile? || e.host.HostDir? || e.host.HostLink?)
  }

  /** How many of the first n entries are such, written out. */
  function Count(entries: seq<HostEntry>, n: nat): (c: nat)
    requires n <= |entries|
    ensures c <= n
  {
    if n == 0 then 0
    else
      var e := entries[n - 1];
      Count(entries, n - 1) +
      if (e.name != [] && e.name[0] == 46) || e.host.Special? || e.host.Unreadable? then 0 else 1
  }

  /** The position of the j-th of them. */
  function Source(entries: seq<HostEntry>, n: nat, j: nat): (r: nat)
    requires n <= |entries| && j < Count(entries, n)
    ensures r < n && Shown(entries[r]) && Count(entries, r) == j
  {
    if Shown(entries[n - 1]) && j == Count(entries, n - 1) then n - 1 else Source(entries, n - 1, j)
  }

  lemma {:induction false} CountGrows(entries: seq<HostEntry>, i: nat, n: nat)
    requires i < n <= |entries|
    ensures Count(entries, i) <= Count(entries, n) && (Shown(entries[i]) ==> Count(entries, i) < Count(entries, n))
  {
    if i + 1 < n {
      CountGrows(entries, i, n - 1);
    }
  }

  lemma {:induction false} SourceIs(entries: seq<HostEntry>, n: nat, i: nat)
    requires i < n <= |entries| && Shown(entries[i])
    ensures Count(entries, i) < Count(entries, n) && Source(entries, n, Count(entries, i)) == i
  {
    CountGrows(entries, i, n);
    if i + 1 < n {
      SourceIs(entries, n - 1, i);
    }
  }

  // ---------------------------------------------------------------- names and links

  predicate IsSubdir(e: HostEntry) {
    Shown(e) && e.host.HostDir?
  }

  /** How many of the first n entries are directories that are shown. */
  function Subdirs(entries: seq<HostEntry>, n: nat): (c: nat)
    requires n <= |entries|
    ensures c <= Count(entries, n)
  {
    if n == 0 then 0 else Subdirs(entries, n - 1) + if IsSubdir(entries[n - 1]) then 1 else 0
  }

  /** The files that are shown below the first n entries of a directory, by their inode numbers, once for every name. */
  ghost function NamesOf(host: Host, n: nat): multiset<nat>
    requires host.HostDir? && n <= |host.entries|
    decreases host, 0, n
  {
    if n == 0 then multiset{} else NamesOf(host, n - 1) + NamesAt(host, n - 1)
  }

  /** All of them. */
  ghost function Tally(home: Host): multiset<nat> {
    if home.HostDir? then NamesOf(home, |home.entries|) else multiset{}
  }

  ghost function NamesAt(host: Host, i: nat): multiset<nat>
    requires host.HostDir? && i < |host.entries|
    decreases host, 0, i
  {
    if !Shown(host.entries[i]) then multiset{}
    else match host.entries[i].host
      case HostFile(r, _) => multiset{r}
      case HostDir(_, _) => NamesOf(host.entries[i].host, |host.entries[i].host.entries|)
      case _ => multiset{}
  }

  // ---------------------------------------------------------------- when inodes hold a tree

  /** A directory block that names inode `ino`. */
  ghost predicate EntryFor(c: Content, ino: nat, name: Name) {
    |name| < FNAME_SIZE && exists stale :: |stale| == FNAME_SIZE && c == Bytes(EntryBlock(ino, NameField(name, stale)))
  }

  /** The first two blocks name the directory itself and the one above. */
  ghost predicate Dots(contents: seq<Content>, ino: nat, up: nat) {
    |contents| >= 2 && EntryFor(contents[0], ino, DOT) && EntryFor(contents[1], up, DOTDOT)
  }

  /** The blocks of an inode, its size, and its links; for files 0, as theirs get more as long as the walk lasts. */
  datatype Body = Body(contents: seq<Content>, size: nat, nlinks: nat)

  type Held = map<CacheInode, Body>

  /** The block names, under the entry's name, an inode that was made of the entry's object. */
  ghost predicate Named(c: Content, e: HostEntry, up: nat, held: Held)
    decreases e.host, 3
  {
    exists g :: g in held && EntryFor(c, g.ino, e.name) && Made(g, e.host, up, held)
  }

  /** The chunks, all of them full but the last, padded to blocks; and their length. */
  ghost predicate HoldsChunks(b: Body, chunks: seq<seq<Byte>>) {
    Chunks(chunks) && FullBlocks(chunks) && b.contents == PaddedAll(chunks) && b.size == Total(chunks)
  }

  /** Inode g is of the object's kind and holds what the object holds; `up` is the number of the directory above. */
  ghost predicate Made(g: CacheInode, host: Host, up: nat, held: Held)
    decreases host, 2
  {
    g in held && match host
    case HostDir(r, entries) =>
      && g.kind == DIR && g.realIno == r && held[g].size == FNAME_SIZE * |held[g].contents|
      && held[g].nlinks == 2 + Subdirs(entries, |entries|)
      && Filled(held[g].contents, g.ino, up, host, |entries|, held)
    case HostFile(r, chunks) => g.kind == FILE && g.realIno == r && HoldsChunks(held[g], chunks)
    case HostLink(r, target) =>
      && g.kind == LINK && g.realIno == r && target.Some? && |target.value| <= BLKSIZE
      && held[g] == Body([Bytes(Padded(target.value))], |target.value|, 1)
    case _ => false
  }

  /**
   The blocks of directory `ino` name itself, the directory above, and those of the first n entries of the
   host that are shown.
   */
  ghost predicate Filled(contents: seq<Content>, ino: nat, up: nat, host: Host, n: nat, held: Held)
    decreases host, 1
  {
    && host.HostDir? && n <= |host.entries|
    && |contents| == 2 + Count(host.entries, n) && Dots(contents, ino, up)
    && forall r :: 0 <= r < n ==> NamedAt(contents, host, r, ino, held)
  }

  /** The block for entry r is the one behind those of the entries shown before it. */
  ghost predicate NamedAt(contents: seq<Content>, host: Host, r: nat, up: nat, held: Held)
    decreases host, 0
  {
    && host.HostDir? && r < |host.entries|
    && var slot := 2 + Count(host.entries, r);
    Shown(host.entries[r]) ==> slot < |contents| && Named(contents[slot], host.entries[r], up, held)
  }

  ghost predicate Includes(held: Held, more: Held) {
    forall g :: g in held ==> g in more && more[g] == held[g]
  }

  /** What is made stays made while nothing that is held changes. */
  lemma {:induction false} MadeKept(g: CacheInode, host: Host, up: nat, held: Held, more: Held)
    requires g in held && Made(g, host, up, held) && Includes(held, more)
    ensures Made(g, host, up, more)
    decreases host, 2
  {
    hide Filled;
    if host.HostDir? {
      FilledKept(held[g].contents, g.ino, up, host, |host.entries|, held, more);
    }
  }

  lemma {:induction false} NamedKept(c: Content, e: HostEntry, up: nat, held: Held, more: Held)
    requires Named(c, e, up, held) && Includes(held, more)
    ensures Named(c, e, up, more)
    decreases e.host, 3
  {
    hide Made;
    var g :| g in held && EntryFor(c, g.ino, e.name) && Made(g, e.host, up, held);
    MadeKept(g, e.host, up, held, more);
  }

  lemma {:induction false} FilledKept(contents: seq<Content>, ino: nat, up: nat, host: Host, n: nat, held: Held,
      more: Held)
    requires host.HostDir? && n <= |host.entries| && Filled(contents, ino, up, host, n, held) && Includes(held, more)
    ensures Filled(contents, ino, up, host, n, more)
    decreases host, 1
  {
    hide NamedAt, Count;
    forall r | 0 <= r < n
      ensures NamedAt(contents, host, r, ino, more)
    {
      NamedAtKept(contents, host, r, ino, held, more);
    }
  }

  lemma {:induction false} NamedAtKept(contents: seq<Content>, host: Host, r: nat, up: nat, held: Held, more: Held)
    requires host.HostDir? && r < |host.entries| && NamedAt(contents, host, r, up, held) && Includes(held, more)
    ensures NamedAt(contents, host, r, up, more)
    decreases host, 0
  {
    hide Named, Count;
    if Shown(host.entries[r]) {
      NamedKept(contents[2 + Count(host.entries, r)], host.entries[r], up, held, more);
    }
  }

  /** One more entry of the host is dealt with. */
  lemma FilledStep(before: seq<Content>, after: seq<Content>, ino: nat, up: nat, host: Host, n: nat, held: Held,
      more: Held)
    requires host.HostDir? && n < |host.entries| && Includes(held, more)
    requires if Shown(host.entries[n])
             then |after| == |before| + 1 && after[..|before|] == before
                  && Named(after[|before|], host.entries[n], ino, more)
             else after == before
    requires Filled(before, ino, up, host, n, held)
    ensures Filled(after, ino, up, host, n + 1, more)
  {
    hide Named;
    FilledKept(before, ino, up, host, n, held, more);
    assert after[0] == before[0] && after[1] == before[1];
    forall r | 0 <= r < n + 1
      ensures NamedAt(after, host, r, ino, more)
    {
      if r < n {
        assert NamedAt(before, host, r, ino, more);
        assert |before| <= |after| && forall k :: 0 <= k < |before| ==> after[k] == before[k];
      }
    }
  }

  /**
   Every entry whose name does not begin with a dot and that is a file, a directory or a link has a block that names
   what was made of it: behind the first two, as many blocks on as there are such entries before it.  There is no other
   block.
   */
  ghost predicate Shows(contents: seq<Content>, ino: nat, host: Host, held: Held) {
    && host.HostDir? && |contents| == 2 + Count(host.entries, |host.entries|)
    && forall i :: 0 <= i < |host.entries| ==> HasBlock(contents, ino, host.entries, i, held)
  }

  ghost predicate HasBlock(contents: seq<Content>, ino: nat, entries: seq<HostEntry>, i: nat, held: Held)
    requires i < |entries|
  {
    var e := entries[i];
    (e.name == [] || e.name[0] != 46) && (e.host.HostFile? || e.host.HostDir? || e.host.HostLink?) ==>
      2 + Count(entries, i) < |contents| && Named(contents[2 + Count(entries, i)], e, ino, held)
  }

  lemma FilledShows(contents: seq<Content>, ino: nat, up: nat, host: Host, held: Held)
    requires host.HostDir? && Filled(contents, ino, up, host, |host.entries|, held)
    ensures Shows(contents, ino, host, held)
  {
    hide Named, Count, Dots;
    forall i | 0 <= i < |host.entries|
      ensures HasBlock(contents, ino, host.entries, i, held)
    {
      assert NamedAt(contents, host, i, ino, held);
    }
  }

  // ---------------------------------------------------------------- what a tree costs

  /** The numbers an object takes, and the host's inode numbers known afterwards. */
  datatype Bill = Bill(cost: nat, seen: set<nat>)

  /** The inode and the blocks of an object; None where the tool gives up. */
  ghost function BillOf(host: Host, seen: set<nat>): Option<Bill>
    decreases host, 1
  {
    match host
    case HostFile(r, chunks) =>
      if r in seen then Some(Bill(0, seen))
      else if FullBlocks(chunks) && |chunks| <= LN_NBLKS then Some(Bill(1 + Needed(0, |chunks|), seen + {r}))
      else None
    case HostLink(r, target) =>
      if target.Some? && |target.value| < BLKSIZE then Some(Bill(2, seen + {r})) else None
    case HostDir(r, entries) =>
      if r in seen then None
      else (match BillDir(host, |entries|, seen + {r})
            case None => None
            case Some(b) => Some(Bill(1 + b.cost, b.seen)))
    case _ => None
  }

  /** The same with the directory block that names the object, the k-th of its directory. */
  ghost function BillEntry(host: Host, k: nat, seen: set<nat>): Option<Bill>
    decreases host, 2
  {
    match BillOf(host, seen)
    case None => None
    case Some(b) => if k < LN_NBLKS then Some(Bill(b.cost + 1 + NewTables(k), b.seen)) else None
  }

  /** The blocks of a directory for the first n entries of the host, and everything below them. */
  ghost function BillDir(host: Host, n: nat, seen: set<nat>): Option<Bill>
    requires host.HostDir? && n <= |host.entries|
    decreases host, 0, n
  {
    if n == 0 then Some(Bill(2, seen))
    else match BillDir(host, n - 1, seen)
      case None => None
      case Some(b) => BillNext(host, n - 1, b)
  }

  ghost function BillNext(host: Host, i: nat, b: Bill): Option<Bill>
    requires host.HostDir? && i < |host.entries|
    decreases host, 0, i
  {
    var e := host.entries[i];
    if e.name != [] && e.name[0] == 46 then Some(b)
    else if |e.name| >= FNAME_SIZE then None
    else if e.host.Special? then Some(b)
    else match BillEntry(e.host, 2 + Count(host.entries, i), b.seen)
      case None => None
      case Some(c) => Some(Bill(b.cost + c.cost, c.seen))
  }

  lemma {:induction false} BillGrows(host: Host, i: nat, n: nat, seen: set<nat>)
    requires host.HostDir? && i <= n <= |host.entries| && BillDir(host, n, seen).Some?
    ensures BillDir(host, i, seen).Some? && BillDir(host, i, seen).value.cost <= BillDir(host, n, seen).value.cost
  {
    hide BillEntry;
    if i < n {
      BillGrows(host, i, n - 1, seen);
    }
  }
}
