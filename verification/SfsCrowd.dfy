/**
 A host tree that lab8/tools/mksfs.c puts on an image, but whose file the kernel cannot open: it has 65536 names, so
 that its 16-bit link count is 0.
 */
module SfsCrowd {
  import opened Words
  import opened SfsLayout
  import opened SfsInode
  import opened Mksfs
  import opened HostTree
  import opened MksfsTree
  import opened SfsLookup

  const CROWD: nat := 16384
  const LOST: Host := HostFile(7, [])

  function NameNo(i: nat): Name
    requires i < CROWD
  {
    [128 + i / 128, 128 + i % 128]
  }

  /** A directory with many names of the one file, all different. */
  function Street(realIno: nat): (h: Host)
    ensures h.HostDir? && |h.entries| == CROWD && h.realIno == realIno && AllLost(h)
  {
    HostDir(realIno, seq(CROWD, i requires 0 <= i < CROWD => HostEntry(NameNo(i), LOST)))
  }

  /** Four of them. */
  function Town(): (h: Host)
    ensures h.HostDir? && |h.entries| == 4 && h.realIno == 1
    ensures forall i :: 0 <= i < 4 ==> h.entries[i] == HostEntry([97 + i], Street(2 + i))
  {
    HostDir(1, [HostEntry([97], Street(2)), HostEntry([98], Street(3)), HostEntry([99], Street(4)),
                HostEntry([100], Street(5))])
  }

  /** All entries are names of the file, shown and plain. */
  ghost predicate AllLost(host: Host) {
    host.HostDir? && |host.entries| <= CROWD
    && forall i :: 0 <= i < |host.entries| ==> LostAt(host.entries[i])
  }

  ghost predicate LostAt(e: HostEntry) {
    e.host == LOST && Shown(e) && Plain(e.name) && |e.name| < FNAME_SIZE
  }

  lemma {:induction false} StreetNames(host: Host, n: nat)
    requires AllLost(host) && n <= |host.entries|
    ensures NamesOf(host, n)[7] == n
  {
    hide LostAt;
    if n > 0 {
      StreetNames(host, n - 1);
      StreetName(host, n - 1);
    }
  }

  lemma StreetName(host: Host, i: nat)
    requires AllLost(host) && i < |host.entries|
    ensures NamesAt(host, i) == multiset{7}
  {
    assert LostAt(host.entries[i]);
  }

  /** What a street costs: a number for each name, and tables; and once a number for the file. */
  lemma {:induction false} StreetBill(host: Host, n: nat, seen: set<nat>)
    requires AllLost(host) && n <= |host.entries|
    ensures BillDir(host, n, seen).Some? && BillDir(host, n, seen).value.cost <= 3 + 4 * n
    ensures seen <= BillDir(host, n, seen).value.seen <= seen + {7}
  {
    hide LostAt, BillNext;
    if n > 0 {
      StreetBill(host, n - 1, seen);
      BillLost(host, n - 1, BillDir(host, n - 1, seen).value);
    }
  }

  lemma BillLost(host: Host, i: nat, b: Bill)
    requires AllLost(host) && i < |host.entries|
    ensures host.HostDir? && BillNext(host, i, b).Some?
    ensures BillNext(host, i, b).value.cost <= b.cost + 4
    ensures b.seen <= BillNext(host, i, b).value.seen <= b.seen + {7}
  {
    assert LostAt(host.entries[i]);
    assert Needed(0, 0) == 0;
  }

  lemma TownIsPlain()
    ensures WellFormed(Town(), map[7 := []]) && PlainNames(Town())
  {
    hide Town, Street, AllLost;
    forall i | 0 <= i < 4
      ensures WellFormed(Town().entries[i].host, map[7 := []]) && PlainAt(Town().entries[i])
    {
      StreetIsPlain(Street(2 + i));
    }
  }

  lemma StreetIsPlain(host: Host)
    requires AllLost(host) && host.realIno != 7
    ensures WellFormed(host, map[7 := []]) && PlainNames(host)
  {
    forall i | 0 <= i < |host.entries|
      ensures WellFormed(host.entries[i].host, map[7 := []]) && PlainAt(host.entries[i])
    {
      assert LostAt(host.entries[i]);
    }
  }

  lemma {:induction false} TownNames(n: nat)
    requires n <= 4
    ensures NamesOf(Town(), n)[7] == n * CROWD
  {
    hide Town, Street, AllLost;
    if n > 0 {
      TownNames(n - 1);
      StreetNames(Street(1 + n), CROWD);
      assert NamesAt(Town(), n - 1) == NamesOf(Street(1 + n), CROWD);
    }
  }

  lemma {:induction false} TownBillOf(n: nat)
    requires n <= 4
    ensures BillDir(Town(), n, {0}).Some? && BillDir(Town(), n, {0}).value.cost <= 2 + n * (8 + 4 * CROWD)
    ensures forall r :: r in BillDir(Town(), n, {0}).value.seen ==> r == 7 || r < 2 + n
  {
    hide Town, Street, AllLost, BillNext;
    if n > 0 {
      TownBillOf(n - 1);
      TownNext(n - 1, BillDir(Town(), n - 1, {0}).value);
    }
  }

  lemma TownNext(i: nat, b: Bill)
    requires i < 4 && 2 + i !in b.seen
    ensures BillNext(Town(), i, b).Some? && BillNext(Town(), i, b).value.cost <= b.cost + 8 + 4 * CROWD
    ensures forall r :: r in BillNext(Town(), i, b).value.seen ==> r in b.seen || r == 2 + i || r == 7
  {
    hide Town, Street, AllLost, BillDir;
    var h := Street(2 + i);
    assert Town().entries[i] == HostEntry([97 + i], h);
    StreetBill(h, CROWD, b.seen + {2 + i});
    var c := BillDir(h, CROWD, b.seen + {2 + i}).value;
    assert BillOf(h, b.seen) == Some(Bill(1 + c.cost, c.seen));
    assert Count(Town().entries, i) <= 4;
    assert BillEntry(h, 2 + Count(Town().entries, i), b.seen) == Some(Bill(2 + c.cost, c.seen));
  }

  lemma TownBill()
    ensures Affordable(BillDir(Town(), 4, {0}), FirstIno(MAX_NBLKS), MAX_NBLKS)
  {
    hide Town, BillDir;
    TownBillOf(4);
  }

  lemma TownPath()
    ensures Path(Town(), [[97], [128, 128]], LOST)
  {
    hide AllLost;
    var path: seq<Name> := [[97], [128, 128]];
    assert Street(2).entries[0] == HostEntry(NameNo(0), LOST);
    assert path[1..] == [[128, 128]] && path[1..][1..] == [];
    assert Step(Town(), 0, path[0]);
    assert Step(Street(2), 0, path[1..][0]);
    assert Path(LOST, path[1..][1..], LOST);
    assert Path(Street(2), path[1..], LOST);
  }

  /** The tool gets through, the kernel can get to the file, and the file's link count has wrapped around. */
  lemma TownIsLost()
    ensures WellFormed(Town(), map[7 := []]) && PlainNames(Town())
    ensures Affordable(BillDir(Town(), 4, {0}), FirstIno(MAX_NBLKS), MAX_NBLKS)
    ensures Path(Town(), [[97], [128, 128]], LOST)
    ensures Wrapped(LOST, Tally(Town()))
  {
    hide Town, WellFormed, PlainNames, BillDir, Affordable, Path, NamesOf;
    TownIsPlain();
    TownBill();
    TownPath();
    TownNames(4);
  }

  /** So the kernel panics when it looks the file up. */
  lemma LostOnImage(sfs: Sfs, home: Host, path: seq<Name>)
    requires home == Town() && path == [[97], [128, 128]]
    requires Imaged(sfs, home)
    ensures Walk(sfs.image, BLKN_ROOT, path) == Crash
  {
    hide Town, Imaged, PlainNames, Walk, Path, Tally, FindsFile;
    TownIsLost();
    HostFileFound(sfs, home, path, LOST);
  }
}
