/**
 The three-level page tables of lab4/kern/mm/pmm.c as a mathematical object: the encoding of
 addresses and entries (lab4/kern/mm/mmu.h, lab4/kern/mm/pmm.h), the tree of tables, and the finite
 map it stands for.
 */
module PageTree {
  import opened Words

  const ENTRIES: nat := 512       // NPTEENTRY
  const PGSIZE: nat := 4096

  // ---------------------------------------------------------------- addresses

  function Pdx1(la: nat): (r: nat)
    ensures r < ENTRIES
  {
    la / 0x4000_0000 % 512
  }

  function Pdx0(la: nat): (r: nat)
    ensures r < ENTRIES
  {
    la / 0x20_0000 % 512
  }

  function Ptx(la: nat): (r: nat)
    ensures r < ENTRIES
  {
    la / 0x1000 % 512
  }

  function PgOff(la: nat): nat {
    la % 0x1000
  }

  function PgAddr(d1: nat, d0: nat, t: nat, o: nat): nat {
    Or(Or(Or(d1 * 0x4000_0000, d0 * 0x20_0000), t * 0x1000), o)
  }

  /** Below 2^39 the four fields determine the address, and conversely. */
  lemma AddressRoundTrip(la: nat)
    requires la < 0x80_0000_0000
    ensures PgAddr(Pdx1(la), Pdx0(la), Ptx(la), PgOff(la)) == la
  {
    FieldsAdd(Pdx1(la), Pdx0(la), Ptx(la), PgOff(la));
    var p := la / 0x1000;
    assert la == 0x1000 * p + la % 0x1000;
    assert p / 512 == la / 0x20_0000 && p / 512 / 512 == la / 0x4000_0000;
  }

  lemma FieldsRoundTrip(d1: nat, d0: nat, t: nat, o: nat)
    requires d1 < ENTRIES && d0 < ENTRIES && t < ENTRIES && o < PGSIZE
    ensures var la := PgAddr(d1, d0, t, o);
      Pdx1(la) == d1 && Pdx0(la) == d0 && Ptx(la) == t && PgOff(la) == o
  {
    hide PgAddr, Or;
    FieldsAdd(d1, d0, t, o);
    var la := PgAddr(d1, d0, t, o);
    assert la == (d1 * 0x4_0000 + d0 * 0x200 + t) * 0x1000 + o;
    assert la / 0x1000 == d1 * 0x4_0000 + d0 * 0x200 + t;
    assert la / 0x20_0000 == d1 * 0x200 + d0;
    assert la / 0x4000_0000 == d1;
  }

  lemma FieldsAdd(d1: nat, d0: nat, t: nat, o: nat)
    requires d0 < ENTRIES && t < ENTRIES && o < PGSIZE
    ensures PgAddr(d1, d0, t, o) == d1 * 0x4000_0000 + d0 * 0x20_0000 + t * 0x1000 + o
  {
    assert Pow2(10) == 1024;
    assert Pow2(12) == 0x1000;
    assert Pow2(21) == 512 * Pow2(12) by {
      assert Pow2(15) == 8 * Pow2(12);
      assert Pow2(18) == 8 * Pow2(15);
      assert Pow2(21) == 8 * Pow2(18);
    }
    assert Pow2(30) == 512 * Pow2(21) by {
      assert Pow2(24) == 8 * Pow2(21);
      assert Pow2(27) == 8 * Pow2(24);
      assert Pow2(30) == 8 * Pow2(27);
    }
    OrBelow(d1, 30, d0 * 0x20_0000);
    OrBelow(d1 * 512 + d0, 21, t * 0x1000);
    OrBelow((d1 * 512 + d0) * 512 + t, 12, o);
  }

  // ---------------------------------------------------------------- entries

  predicate Present(pte: nat) {
    pte % 2 == 1
  }

  function PteCreate(ppn: nat, flags: nat): nat {
    Or(Or(ppn * 1024, 1), flags)
  }

  function PteAddr(pte: nat): nat {
    pte / 1024 * 4096
  }

  function Ppn(pa: nat): nat {
    pa / 4096
  }

  /** The frame an entry points to; pte2page and pde2page without the index shift by nbase. */
  function Target(pte: nat): nat {
    Ppn(PteAddr(pte))
  }

  function Flags(pte: nat): nat {
    pte % 1024
  }

  lemma PteValue(ppn: nat, flags: nat)
    requires flags < 1024
    ensures PteCreate(ppn, flags) == ppn * 1024 + Or(1, flags)
    ensures Or(1, flags) < 1024 && Or(1, flags) % 2 == 1
  {
    assert Pow2(10) == 1024;
    OrBelow(ppn, 10, 1);
    OrBounded(1, flags, 10);
    OrAssoc(ppn * 1024, 1, flags);
    OrBelow(ppn, 10, Or(1, flags));
  }

  /** An entry made of a frame number and flags below 2^10 gives both back, and is present. */
  lemma PteRoundTrip(ppn: nat, flags: nat)
    requires flags < 1024
    ensures Present(PteCreate(ppn, flags))
    ensures Target(PteCreate(ppn, flags)) == ppn && Flags(PteCreate(ppn, flags)) == Or(1, flags)
  {
    hide PteCreate, Or;
    PteValue(ppn, flags);
    var low := Or(1, flags);
    assert (ppn * 1024 + low) / 1024 == ppn && (ppn * 1024 + low) % 1024 == low;
  }

  // ---------------------------------------------------------------- the tree

  /** Where a table hangs: entry `index` of table `parent`. */
  datatype Slot = Slot(table: nat, index: nat)

  /**
   The frames that hold tables, the top-level ones among them, and for the proof the level and place of every
   table.
   */
  datatype Tree = Tree(mem: map<nat, seq<nat>>, roots: set<nat>, level: map<nat, nat>, owner: map<nat, Slot>)

  /** A page of some address space: the directory and the three indices of its address. */
  datatype Key = Key(root: nat, d1: nat, d0: nat, t: nat)

  datatype Mapping = Mapping(page: nat, flags: nat)

  function KeyOf(root: nat, la: nat): Key {
    Key(root, Pdx1(la), Pdx0(la), Ptx(la))
  }

  ghost predicate WellFormed(tr: Tree) {
    && tr.roots <= tr.mem.Keys && tr.level.Keys == tr.mem.Keys
    && (forall t :: t in tr.mem ==> |tr.mem[t]| == ENTRIES && tr.level[t] <= 2 && (tr.level[t] == 2 <==> t in tr.roots))
    && (forall t, i :: t in tr.mem && tr.level[t] > 0 && 0 <= i < ENTRIES && Present(tr.mem[t][i]) ==>
          var c := Target(tr.mem[t][i]);
          c in tr.mem && tr.level[c] == tr.level[t] - 1 && c in tr.owner && tr.owner[c] == Slot(t, i))
  }

  ghost predicate InRange(tr: Tree, k: Key) {
    k.root in tr.roots && k.d1 < ENTRIES && k.d0 < ENTRIES && k.t < ENTRIES
  }

  /** The last-level table that the walk for `k` arrives at. */
  ghost function LeafTable(tr: Tree, k: Key): (r: Option<nat>)
    requires WellFormed(tr) && InRange(tr, k)
    ensures r.Some? ==> r.value in tr.mem && tr.level[r.value] == 0
  {
    var e1 := tr.mem[k.root][k.d1];
    if !Present(e1) then None
    else
      var e0 := tr.mem[Target(e1)][k.d0];
      if !Present(e0) then None else Some(Target(e0))
  }

  /** What the walk for `k` finds. */
  ghost function Lookup(tr: Tree, k: Key): Option<Mapping>
    requires WellFormed(tr) && InRange(tr, k)
  {
    var leaf := LeafTable(tr, k);
    if leaf.None? then None
    else
      var pte := tr.mem[leaf.value][k.t];
      if Present(pte) then Some(Mapping(Target(pte), Flags(pte))) else None
  }

  ghost function Keys(roots: set<nat>): set<Key> {
    set r, i: nat, j: nat, t: nat | r in roots && i < ENTRIES && j < ENTRIES && t < ENTRIES :: Key(r, i, j, t)
  }

  /** The finite map that the tree stands for. */
  ghost function View(tr: Tree): map<Key, Mapping>
    requires WellFormed(tr)
  {
    map k | k in Keys(tr.roots) && Lookup(tr, k).Some? :: Lookup(tr, k).value
  }

  /** Two keys that arrive at the same last-level table differ in the last index at most. */
  lemma LeafTableInjective(tr: Tree, k: Key, q: Key)
    requires WellFormed(tr) && InRange(tr, k) && InRange(tr, q)
    requires LeafTable(tr, k).Some? && LeafTable(tr, q) == LeafTable(tr, k)
    ensures k.root == q.root && k.d1 == q.d1 && k.d0 == q.d0
  {
    var tk, tq := Target(tr.mem[k.root][k.d1]), Target(tr.mem[q.root][q.d1]);
    assert tr.owner[LeafTable(tr, k).value] == Slot(tk, k.d0);
    assert tr.owner[LeafTable(tr, q).value] == Slot(tq, q.d0);
  }

  // ---------------------------------------------------------------- what the processor finds

  /**
   Where the address translation of the Sv39 scheme (section 4.4 of the RISC-V privileged architecture, version 1.11)
   looks for the last-level entry of an address, as arithmetic on the numbers in memory alone.
   */
  ghost function Slot39(mem: map<nat, seq<nat>>, root: nat, la: nat): Option<Slot> {
    if root in mem && |mem[root]| == 512 then
      var e1 := mem[root][la / 0x4000_0000 % 512];
      if e1 % 2 == 1 && e1 / 1024 in mem && |mem[e1 / 1024]| == 512 then
        var e0 := mem[e1 / 1024][la / 0x20_0000 % 512];
        if e0 % 2 == 1 then Some(Slot(e0 / 1024, la / 0x1000 % 512)) else None
      else None
    else None
  }

  /** The entry, if it is valid. */
  ghost function Pte39(mem: map<nat, seq<nat>>, root: nat, la: nat): Option<nat> {
    match Slot39(mem, root, la)
    case None => None
    case Some(s) =>
      if s.table in mem && s.index < |mem[s.table]| && mem[s.table][s.index] % 2 == 1 then
        Some(mem[s.table][s.index])
      else None
  }

  /** The physical address. */
  ghost function Translate(mem: map<nat, seq<nat>>, root: nat, la: nat): Option<nat> {
    match Pte39(mem, root, la)
    case None => None
    case Some(e) => Some(e / 1024 * 4096 + la % 4096)
  }

  /** Address la lies on virtual page p; the scheme looks at 27 bits of the page number. */
  ghost predicate OnPage(la: nat, p: nat) {
    la / 4096 % 0x800_0000 == p % 0x800_0000
  }

  /**
   From `was` to `mem`: the n virtual pages from p on lead to the frames from `frame` on, each with these flags, and
   the walk for any other page, or from another root, ends as before.
   */
  ghost predicate Maps39(was: map<nat, seq<nat>>, mem: map<nat, seq<nat>>, roots: set<nat>, root: nat, p: nat, n: nat,
      frame: nat, flags: nat) {
    && (forall q: nat, la: nat :: p <= q < p + n && OnPage(la, q) ==>
          Pte39(mem, root, la) == Some((frame + (q - p)) * 1024 + flags))
    && (forall r: nat, la: nat :: r in roots && (r != root || forall q: nat :: p <= q < p + n ==> !OnPage(la, q)) ==>
          Pte39(mem, r, la) == Pte39(was, r, la))
  }

  /** From `was` to `mem`: virtual page p leads nowhere, and every other walk ends as before. */
  ghost predicate Unmaps39(was: map<nat, seq<nat>>, mem: map<nat, seq<nat>>, roots: set<nat>, root: nat, p: nat) {
    && (forall la: nat :: OnPage(la, p) ==> Pte39(mem, root, la) == None)
    && (forall r: nat, la: nat :: r in roots && (r != root || !OnPage(la, p)) ==>
          Pte39(mem, r, la) == Pte39(was, r, la))
  }

  /** From `was` to `mem`: every walk ends as before. */
  ghost predicate Same39(was: map<nat, seq<nat>>, mem: map<nat, seq<nat>>, roots: set<nat>) {
    forall r: nat, la: nat :: r in roots ==> Pte39(mem, r, la) == Pte39(was, r, la)
  }

  lemma SlotIs39(tr: Tree, root: nat, la: nat)
    requires WellFormed(tr) && root in tr.roots
    ensures var leaf := LeafTable(tr, KeyOf(root, la));
      Slot39(tr.mem, root, la) == if leaf.Some? then Some(Slot(leaf.value, Ptx(la))) else None
  {
    var k := KeyOf(root, la);
    assert InRange(tr, k);
    var e1 := tr.mem[root][k.d1];
    TargetIs(e1);
    if Present(e1) {
      TargetIs(tr.mem[Target(e1)][k.d0]);
    }
  }

  lemma TargetIs(e: nat)
    ensures Target(e) == e / 1024
  {
    assert e / 1024 * 4096 / 4096 == e / 1024;
  }

  /** The finite map is what the processor finds. */
  lemma ViewIs39(tr: Tree, root: nat, la: nat)
    requires WellFormed(tr) && root in tr.roots
    ensures var k := KeyOf(root, la);
      Pte39(tr.mem, root, la) == if k in View(tr) then Some(View(tr)[k].page * 1024 + View(tr)[k].flags) else None
  {
    hide Slot39, LeafTable;
    var k := KeyOf(root, la);
    assert InRange(tr, k) && Key(k.root, k.d1, k.d0, k.t) in Keys(tr.roots);
    SlotIs39(tr, root, la);
    if LeafTable(tr, k).Some? {
      TargetIs(tr.mem[LeafTable(tr, k).value][k.t]);
    }
  }

  /** Two addresses have the same indices exactly if they lie on the same page. */
  lemma KeyIsPage(root: nat, la: nat, lb: nat)
    ensures KeyOf(root, la) == KeyOf(root, lb) <==> OnPage(la, lb / 4096)
  {
    Digits(la);
    Digits(lb);
  }

  lemma Digits(la: nat)
    ensures la / 4096 % 0x800_0000 == Pdx1(la) * 0x4_0000 + Pdx0(la) * 0x200 + Ptx(la)
  {
    var p := la / 0x1000;
    assert p / 512 == la / 0x20_0000 && p / 512 / 512 == la / 0x4000_0000;
  }

  lemma SameIs39(was: Tree, tr: Tree)
    requires WellFormed(was) && WellFormed(tr) && was.roots == tr.roots && View(tr) == View(was)
    ensures Same39(was.mem, tr.mem, tr.roots)
  {
    hide Pte39, WellFormed, View;
    forall r: nat, la: nat | r in tr.roots
      ensures Pte39(tr.mem, r, la) == Pte39(was.mem, r, la)
    {
      ViewIs39(was, r, la);
      ViewIs39(tr, r, la);
    }
  }

  lemma UnmapsIs39(was: Tree, tr: Tree, root: nat, la: nat)
    requires WellFormed(was) && WellFormed(tr) && was.roots == tr.roots && root in tr.roots
    requires View(tr) == View(was) - {KeyOf(root, la)}
    ensures Unmaps39(was.mem, tr.mem, tr.roots, root, la / 4096)
  {
    hide Pte39, WellFormed, View, KeyOf, OnPage;
    forall r: nat, lb: nat | r in tr.roots
      ensures Pte39(tr.mem, r, lb) == if r == root && OnPage(lb, la / 4096) then None else Pte39(was.mem, r, lb)
    {
      ViewIs39(was, r, lb);
      ViewIs39(tr, r, lb);
      KeyIsPage(root, lb, la);
      KeyHasRoot(r, lb);
      KeyHasRoot(root, la);
    }
  }

  lemma KeyHasRoot(root: nat, la: nat)
    ensures KeyOf(root, la).root == root
  {
  }

  lemma MapsIs39(was: Tree, tr: Tree, root: nat, la: nat, m: Mapping)
    requires WellFormed(was) && WellFormed(tr) && was.roots == tr.roots && root in tr.roots
    requires View(tr) == View(was)[KeyOf(root, la) := m]
    ensures Maps39(was.mem, tr.mem, tr.roots, root, la / 4096, 1, m.page, m.flags)
    ensures Translate(tr.mem, root, la) == Some((m.page * 1024 + m.flags) / 1024 * 4096 + la % 4096)
  {
    hide Pte39, WellFormed, View, KeyOf, OnPage;
    forall r: nat, lb: nat | r in tr.roots
      ensures Pte39(tr.mem, r, lb) ==
        if r == root && OnPage(lb, la / 4096) then Some(m.page * 1024 + m.flags) else Pte39(was.mem, r, lb)
    {
      ViewIs39(was, r, lb);
      ViewIs39(tr, r, lb);
      KeyIsPage(root, lb, la);
      KeyHasRoot(r, lb);
      KeyHasRoot(root, la);
    }
    KeyIsPage(root, la, la);
  }

  // ---------------------------------------------------------------- changing the tree

  function Zeros(): seq<nat> {
    seq(ENTRIES, _ => 0 as nat)
  }

  function Write(mem: map<nat, seq<nat>>, t: nat, i: nat, pte: nat): map<nat, seq<nat>>
    requires t in mem && i < |mem[t]|
  {
    var row: seq<nat> := mem[t][i := pte];
    mem[t := row]
  }

  /** Frame p becomes an empty table below entry i of table t. */
  ghost function Hung(tr: Tree, t: nat, i: nat, p: nat, flags: nat): Tree
    requires t in tr.mem && t in tr.level && tr.level[t] > 0 && i < |tr.mem[t]| && p !in tr.mem
  {
    Tree(Write(tr.mem[p := Zeros()], t, i, PteCreate(p, flags)), tr.roots,
         tr.level[p := tr.level[t] - 1], tr.owner[p := Slot(t, i)])
  }

  lemma HungIsWellFormed(tr: Tree, t: nat, i: nat, p: nat, flags: nat)
    requires WellFormed(tr) && t in tr.mem && tr.level[t] > 0 && i < ENTRIES && p !in tr.mem && flags < 1024
    ensures WellFormed(Hung(tr, t, i, p, flags))
  {
    hide Or, PteCreate, Target;
    PteRoundTrip(p, flags);
    var after := Hung(tr, t, i, p, flags);
    forall u, j | u in after.mem && after.level[u] > 0 && 0 <= j < ENTRIES && Present(after.mem[u][j])
      ensures var c := Target(after.mem[u][j]);
        c in after.mem && after.level[c] == after.level[u] - 1 && c in after.owner && after.owner[c] == Slot(u, j)
    {
      if u != p && !(u == t && j == i) {
        assert after.mem[u][j] == tr.mem[u][j];
      }
    }
  }

  /** Hanging an empty table below an absent entry maps nothing and unmaps nothing. */
  lemma HungKeepsLookups(tr: Tree, t: nat, i: nat, p: nat, flags: nat, k: Key)
    requires WellFormed(tr) && t in tr.mem && tr.level[t] > 0 && i < ENTRIES && p !in tr.mem && flags < 1024
    requires !Present(tr.mem[t][i]) && InRange(tr, k)
    ensures WellFormed(Hung(tr, t, i, p, flags))
    ensures Lookup(Hung(tr, t, i, p, flags), k) == Lookup(tr, k)
    ensures LeafTable(tr, k).Some? ==> LeafTable(Hung(tr, t, i, p, flags), k) == LeafTable(tr, k)
  {
    hide Or, PteCreate, Target, Flags;
    HungIsWellFormed(tr, t, i, p, flags);
    PteRoundTrip(p, flags);
    var after := Hung(tr, t, i, p, flags);
    if Present(tr.mem[k.root][k.d1]) {
      var u := Target(tr.mem[k.root][k.d1]);
      assert after.mem[k.root][k.d1] == tr.mem[k.root][k.d1];
      assert u in tr.mem && u != p;
      if Present(tr.mem[u][k.d0]) {
        assert after.mem[u][k.d0] == tr.mem[u][k.d0];
        var v := Target(tr.mem[u][k.d0]);
        assert v in tr.mem && v != p && v != t;
        assert after.mem[v] == tr.mem[v];
      }
    }
  }

  lemma HungKeepsView(tr: Tree, t: nat, i: nat, p: nat, flags: nat)
    requires WellFormed(tr) && t in tr.mem && tr.level[t] > 0 && i < ENTRIES && p !in tr.mem && flags < 1024
    requires !Present(tr.mem[t][i])
    ensures WellFormed(Hung(tr, t, i, p, flags)) && View(Hung(tr, t, i, p, flags)) == View(tr)
  {
    hide Hung, Lookup, LeafTable;
    HungIsWellFormed(tr, t, i, p, flags);
    var after := Hung(tr, t, i, p, flags);
    HungRoots(tr, t, i, p, flags);
    forall k | k in Keys(tr.roots)
      ensures Lookup(after, k) == Lookup(tr, k)
    {
      HungKeepsLookups(tr, t, i, p, flags, k);
    }
  }

  lemma HungRoots(tr: Tree, t: nat, i: nat, p: nat, flags: nat)
    requires t in tr.mem && t in tr.level && tr.level[t] > 0 && i < |tr.mem[t]| && p !in tr.mem
    ensures Hung(tr, t, i, p, flags).roots == tr.roots
  {
  }

  /** The entry that the walk for `k` arrives at is overwritten. */
  ghost function Rewritten(tr: Tree, k: Key, pte: nat): Tree
    requires WellFormed(tr) && InRange(tr, k) && LeafTable(tr, k).Some?
  {
    tr.(mem := Write(tr.mem, LeafTable(tr, k).value, k.t, pte))
  }

  lemma RewrittenIsWellFormed(tr: Tree, k: Key, pte: nat)
    requires WellFormed(tr) && InRange(tr, k) && LeafTable(tr, k).Some?
    ensures WellFormed(Rewritten(tr, k, pte))
  {
    hide Target;
    var after := Rewritten(tr, k, pte);
    forall u, j | u in after.mem && after.level[u] > 0 && 0 <= j < ENTRIES && Present(after.mem[u][j])
      ensures var c := Target(after.mem[u][j]);
        c in after.mem && after.level[c] == after.level[u] - 1 && c in after.owner && after.owner[c] == Slot(u, j)
    {
      assert after.mem[u][j] == tr.mem[u][j];
    }
  }

  lemma RewrittenLookup(tr: Tree, k: Key, pte: nat, q: Key)
    requires WellFormed(tr) && InRange(tr, k) && LeafTable(tr, k).Some? && InRange(tr, q)
    ensures WellFormed(Rewritten(tr, k, pte))
    ensures LeafTable(Rewritten(tr, k, pte), q) == LeafTable(tr, q)
    ensures Lookup(Rewritten(tr, k, pte), q) ==
      if q == k then (if Present(pte) then Some(Mapping(Target(pte), Flags(pte))) else None) else Lookup(tr, q)
  {
    hide Target, Flags;
    RewrittenIsWellFormed(tr, k, pte);
    var after := Rewritten(tr, k, pte);
    assert after.mem[q.root] == tr.mem[q.root];
    if Present(tr.mem[q.root][q.d1]) {
      var u := Target(tr.mem[q.root][q.d1]);
      assert after.mem[u] == tr.mem[u];
    }
    if LeafTable(tr, q) == LeafTable(tr, k) {
      LeafTableInjective(tr, k, q);
    }
  }

  lemma RewrittenView(tr: Tree, k: Key, pte: nat)
    requires WellFormed(tr) && InRange(tr, k) && LeafTable(tr, k).Some?
    ensures WellFormed(Rewritten(tr, k, pte))
    ensures View(Rewritten(tr, k, pte)) ==
      if Present(pte) then View(tr)[k := Mapping(Target(pte), Flags(pte))] else View(tr) - {k}
  {
    hide Rewritten, Lookup, LeafTable, Target, Flags;
    RewrittenIsWellFormed(tr, k, pte);
    RewrittenRoots(tr, k, pte);
    var after := Rewritten(tr, k, pte);
    assert k in Keys(tr.roots);
    forall q | q in Keys(tr.roots)
      ensures Lookup(after, q) ==
        if q == k then (if Present(pte) then Some(Mapping(Target(pte), Flags(pte))) else None) else Lookup(tr, q)
    {
      RewrittenLookup(tr, k, pte, q);
    }
  }

  lemma RewrittenRoots(tr: Tree, k: Key, pte: nat)
    requires WellFormed(tr) && InRange(tr, k) && LeafTable(tr, k).Some?
    ensures Rewritten(tr, k, pte).roots == tr.roots
  {
  }

  // ---------------------------------------------------------------- which tables there are

  /** A table below a root: of the middle level, or of the last one. */
  datatype Spot = Upper(root: nat, d1: nat) | Lower(root: nat, d1: nat, d0: nat)

  ghost function Spots(roots: set<nat>): set<Spot> {
    (set r, i: nat | r in roots && i < ENTRIES :: Upper(r, i))
    + (set r, i: nat, j: nat | r in roots && i < ENTRIES && j < ENTRIES :: Lower(r, i, j))
  }

  ghost predicate Stands(tr: Tree, s: Spot)
    requires WellFormed(tr) && s in Spots(tr.roots)
  {
    && Present(tr.mem[s.root][s.d1])
    && (s.Lower? ==> Present(tr.mem[Target(tr.mem[s.root][s.d1])][s.d0]))
  }

  ghost function Standing(tr: Tree): set<Spot>
    requires WellFormed(tr)
  {
    set s | s in Spots(tr.roots) && Stands(tr, s)
  }

  /** The tables on the way to a last-level entry. */
  function Way(k: Key): set<Spot> {
    {Upper(k.root, k.d1), Lower(k.root, k.d1, k.d0)}
  }

  /** Entry i of table t is where the table at s belongs. */
  ghost predicate Belongs(tr: Tree, s: Spot, t: nat, i: nat)
    requires WellFormed(tr)
  {
    && s in Spots(tr.roots)
    && match s
       case Upper(r, d1) => t == r && i == d1
       case Lower(r, d1, d0) => Present(tr.mem[r][d1]) && t == Target(tr.mem[r][d1]) && i == d0
  }

  lemma SpotsOf(roots: set<nat>, k: Key)
    requires k.root in roots && k.d1 < ENTRIES && k.d0 < ENTRIES
    ensures Way(k) <= Spots(roots)
  {
  }

  /** Hanging a table adds it and no other. */
  lemma HungStands(tr: Tree, t: nat, i: nat, p: nat, flags: nat, s: Spot, q: Spot)
    requires WellFormed(tr) && t in tr.mem && tr.level[t] > 0 && i < ENTRIES && p !in tr.mem && flags < 1024
    requires !Present(tr.mem[t][i]) && Belongs(tr, s, t, i) && q in Spots(tr.roots)
    ensures WellFormed(Hung(tr, t, i, p, flags)) && Hung(tr, t, i, p, flags).roots == tr.roots
    ensures Stands(Hung(tr, t, i, p, flags), q) <==> Stands(tr, q) || q == s
  {
    hide Or, PteCreate, Target, Flags;
    HungIsWellFormed(tr, t, i, p, flags);
    PteRoundTrip(p, flags);
    var after := Hung(tr, t, i, p, flags);
    if Present(tr.mem[q.root][q.d1]) {
      var u := Target(tr.mem[q.root][q.d1]);
      assert after.mem[q.root][q.d1] == tr.mem[q.root][q.d1];
      assert u in tr.mem && u != p && tr.owner[u] == Slot(q.root, q.d1);
    }
  }

  lemma HungStanding(tr: Tree, t: nat, i: nat, p: nat, flags: nat, s: Spot)
    requires WellFormed(tr) && t in tr.mem && tr.level[t] > 0 && i < ENTRIES && p !in tr.mem && flags < 1024
    requires !Present(tr.mem[t][i]) && Belongs(tr, s, t, i)
    ensures WellFormed(Hung(tr, t, i, p, flags)) && Standing(Hung(tr, t, i, p, flags)) == Standing(tr) + {s}
  {
    hide Hung, Stands, Spots;
    HungIsWellFormed(tr, t, i, p, flags);
    HungRoots(tr, t, i, p, flags);
    forall q | q in Spots(tr.roots)
      ensures Stands(Hung(tr, t, i, p, flags), q) <==> Stands(tr, q) || q == s
    {
      HungStands(tr, t, i, p, flags, s, q);
    }
  }

  /** Rewriting a last-level entry adds and removes none. */
  lemma RewrittenStanding(tr: Tree, k: Key, pte: nat)
    requires WellFormed(tr) && InRange(tr, k) && LeafTable(tr, k).Some?
    ensures WellFormed(Rewritten(tr, k, pte)) && Standing(Rewritten(tr, k, pte)) == Standing(tr)
  {
    hide Target, Spots;
    RewrittenIsWellFormed(tr, k, pte);
    var after := Rewritten(tr, k, pte);
    forall q | q in Spots(tr.roots)
      ensures Stands(after, q) <==> Stands(tr, q)
    {
      RewrittenStands(tr, k, pte, q);
    }
  }

  lemma RewrittenStands(tr: Tree, k: Key, pte: nat, q: Spot)
    requires WellFormed(tr) && InRange(tr, k) && LeafTable(tr, k).Some? && q in Spots(tr.roots)
    ensures WellFormed(Rewritten(tr, k, pte)) && (Stands(Rewritten(tr, k, pte), q) <==> Stands(tr, q))
  {
    hide Target;
    RewrittenIsWellFormed(tr, k, pte);
    var after := Rewritten(tr, k, pte);
    assert after.mem[q.root] == tr.mem[q.root];
    if Present(tr.mem[q.root][q.d1]) {
      var u := Target(tr.mem[q.root][q.d1]);
      assert after.mem[u] == tr.mem[u];
    }
  }

  lemma LeafStands(tr: Tree, k: Key)
    requires WellFormed(tr) && InRange(tr, k)
    ensures LeafTable(tr, k).Some? <==> Way(k) <= Standing(tr)
    ensures Upper(k.root, k.d1) in Standing(tr) <==> Present(tr.mem[k.root][k.d1])
    ensures Lower(k.root, k.d1, k.d0) in Standing(tr) ==> Upper(k.root, k.d1) in Standing(tr)
    ensures Lower(k.root, k.d1, k.d0) in Standing(tr) <==> LeafTable(tr, k).Some?
  {
    SpotsOf(tr.roots, k);
  }

  // ---------------------------------------------------------------- counting references

  ghost function Users(view: map<Key, Mapping>, page: nat): set<Key> {
    set k | k in view && view[k].page == page
  }

  lemma UsersAfterInsert(view: map<Key, Mapping>, k: Key, m: Mapping, page: nat)
    ensures |Users(view[k := m], page)| == |Users(view, page)|
      + (if m.page == page then 1 else 0) - (if k in view && view[k].page == page then 1 else 0)
  {
    var before, after := Users(view, page), Users(view[k := m], page);
    if m.page == page {
      assert after == before + {k};
    } else {
      assert after == before - {k};
    }
  }

  lemma UsersAfterRemove(view: map<Key, Mapping>, k: Key, page: nat)
    ensures |Users(view - {k}, page)| == |Users(view, page)| - (if k in view && view[k].page == page then 1 else 0)
  {
    assert Users(view - {k}, page) == Users(view, page) - {k};
  }
}
