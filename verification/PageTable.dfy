/**
 Mapping and unmapping pages in the three-level tables of lab4/kern/mm/pmm.c, with the reference
 counts that decide when a page goes back to the allocator.

 A frame is named by its physical page number.  `mem` holds the contents of the frames that serve
 as tables; `free` is the abstract page allocator's stock.
 */
module PageTable {
  import opened Words
  import opened PageTree

  const PTE_V: nat := 0x001
  const PTE_U: nat := 0x010

  class Mmu {
    const frames: set<nat>            // nbase, ..., npage - 1
    var mem: map<nat, seq<nat>>
    var ref: map<nat, int>
    var free: set<nat>
    /** What the page allocator will answer, one request after the other. */
    var supply: seq<Option<nat>>
    ghost var roots: set<nat>
    ghost var level: map<nat, nat>
    ghost var owner: map<nat, Slot>

    ghost function Tables(): Tree
      reads this
    {
      Tree(mem, roots, level, owner)
    }

    /** The tables form a tree of frames that the allocator does not own. */
    ghost predicate TreeOk()
      reads this
    {
      Apart(Tables(), ref, free, frames)
    }

    /** The tables below the roots. */
    ghost function TableSpots(): set<Spot>
      requires TreeOk()
      reads this
    {
      Standing(Tables())
    }

    ghost function Mappings(): map<Key, Mapping>
      requires TreeOk()
      reads this
    {
      View(Tables())
    }

    /**
     Every page that is not a table is counted once for each entry that maps it, and only allocated pages are
     mapped.
     */
    ghost predicate Valid()
      reads this
    {
      ValidBut({})
    }

    /** The same, except that each page of `held` carries one reference more. */
    ghost predicate ValidBut(held: set<nat>)
      reads this
    {
      TreeOk() && Counted(Mappings(), ref, frames - mem.Keys, frames - mem.Keys - free, held)
    }

    /** What the allocator will answer can be given out: free frames, none of them twice. */
    ghost predicate Stocked()
      reads this
    {
      Fresh(supply, free)
    }

    constructor (frames: set<nat>, root: nat, supply: seq<Option<nat>>)
      requires root in frames
      ensures this.frames == frames && roots == {root} && free == frames - {root} && this.supply == supply
      ensures Valid() && Mappings() == map[]
    {
      this.frames := frames;
      mem := map[root := Zeros()];
      ref := map p | p in frames :: 0;
      free := frames - {root};
      this.supply := supply;
      roots := {root};
      level := map[root := 2];
      owner := map[];
      new;
      NothingMapped(Tables(), root);
    }

    /** The page allocator: a free frame, or a refusal. */
    method AllocPage() returns (page: Option<nat>)
      requires Stocked()
      modifies this`free, this`supply
      ensures Stocked() && page == Next(old(supply)) && supply == Rest(old(supply))
      ensures page.None? ==> free == old(free)
      ensures page.Some? ==> page.value in old(free) && free == old(free) - {page.value}
    {
      page := Next(supply);
      if page.Some? {
        free := free - {page.value};
      }
      supply := Rest(supply);
    }

    method FreePage(page: nat)
      modifies this`free
      ensures free == old(free) + {page}
    {
      free := free + {page};
    }

    /** The table below entry i of table t; if there is none, a fresh empty one when `create` says so. */
    method NextTable(t: nat, i: nat, create: bool, ghost s: Spot) returns (next: Option<nat>, ghost made: set<nat>)
      requires TreeOk() && t in mem && level[t] > 0 && i < ENTRIES && (create ==> Stocked())
      requires Belongs(Tables(), s, t, i)
      modifies this
      ensures TreeOk() && roots == old(roots) && Mappings() == old(Mappings()) && (create ==> Stocked())
      ensures Grown(old(mem), old(ref), old(free), mem, ref, free, made)
      ensures next == if Present(mem[t][i]) then Some(Target(mem[t][i])) else None
      ensures old(Present(mem[t][i])) || !create ==> made == {} && supply == old(supply)
      ensures !old(Present(mem[t][i])) && create ==> next == Next(old(supply)) && supply == Rest(old(supply))
      ensures !old(Present(mem[t][i])) && create ==> made == Given(old(supply), 1)
      ensures made != {} ==> next.Some? && made == {next.value} && ref[next.value] == 1
      ensures made != {} ==> |mem[next.value]| == 512 && forall j :: 0 <= j < 512 ==> mem[next.value][j] == 0
      ensures made != {} ==> mem[t] == old(mem[t])[i := next.value * 1024 + 17]
      ensures made == {} ==> Tables() == old(Tables()) && ref == old(ref) && free == old(free)
      ensures made != {} ==> create && |made| == 1 && !old(Present(mem[t][i]))
      ensures forall u :: u in old(mem) && u != t ==> mem[u] == old(mem[u])
      ensures TableSpots() == old(TableSpots()) + if made == {} then {} else {s}
    {
      hide Standing, Belongs, Or, PteCreate, Target, WellFormed, Apart, View, Hung, Granted, After, Given, Fresh;
      TableRow(Tables(), ref, free, frames, t);
      UpToTwo(supply);
      made := {};
      if !Present(mem[t][i]) {
        if !create {
          return None, made;
        }
        var page := AllocPage();
        if page == None {
          return None, made;
        }
        var p := page.value;
        HungKeepsApart(old(Tables()), old(ref), old(free), frames, t, i, p);
        HungIsEmpty(old(Tables()), t, i, p);
        HangStanding(old(Tables()), t, i, p, s);
        Hang(t, i, p);
        made := {p};
      }
      return Some(Target(mem[t][i])), made;
    }

    /** Frame p becomes an empty table below entry i of table t. */
    method Hang(t: nat, i: nat, p: nat)
      requires WellFormed(Tables()) && t in mem && level[t] > 0 && i < ENTRIES && p !in mem
      modifies this`mem, this`ref, this`level, this`owner
      ensures Tables() == Hung(old(Tables()), t, i, p, Or(PTE_U, PTE_V)) && ref == old(ref)[p := 1]
    {
      HungIs(Tables(), t, i, p);
      ref := ref[p := 1];
      mem := mem[p := Zeros()];
      mem := Write(mem, t, i, PteCreate(p, Or(PTE_U, PTE_V)));
      level := level[p := level[t] - 1];
      owner := owner[p := Slot(t, i)];
    }

    /** The place of the last-level entry for `la`; absent tables on the way are made if `create` says so. */
    method GetPte(root: nat, la: nat, create: bool) returns (pte: Option<Slot>, ghost made: set<nat>)
      requires TreeOk() && root in roots && (create ==> Stocked())
      modifies this
      ensures TreeOk() && roots == old(roots) && Mappings() == old(Mappings()) && (create ==> Stocked())
      ensures var m := if create then Missing(old(Tables()), KeyOf(root, la)) else 0;
        && (pte.Some? <==> old(LeafTable(Tables(), KeyOf(root, la))).Some? || (create && Granted(old(supply), m)))
        && supply == After(old(supply), m) && made == Given(old(supply), m)
      ensures Grown(old(mem), old(ref), old(free), mem, ref, free, made) && |made| <= 2
      ensures LeafTable(Tables(), KeyOf(root, la)) == if pte.Some? then Some(pte.value.table) else None
      ensures pte.Some? ==> pte.value.index == Ptx(la)
      ensures pte == Slot39(mem, root, la) && Same39(old(mem), mem, roots)
      ensures made == {} ==> Tables() == old(Tables()) && ref == old(ref) && free == old(free)
      ensures made != {} ==> create && old(LeafTable(Tables(), KeyOf(root, la))) == None
      ensures pte.Some? ==> TableSpots() == old(TableSpots()) + Way(KeyOf(root, la))
    {
      hide WellFormed, View, Present, Target, LeafTable, Grown, Pdx1, Pdx0, Ptx, Missing, Fresh, Granted, After, Given,
        Next, Rest, Standing, Belongs, Way, Slot39, Same39;
      ghost var k := KeyOf(root, la);
      MissingIs(Tables(), k);
      UpToTwo(supply);
      UpToTwo(Rest(supply));
      var t1, t0;
      ghost var first, second;
      DirectoryEntry(Tables(), k);
      ghost var start := TableSpots();
      UpperBelongs(Tables(), k);
      t1, first := NextTable(root, Pdx1(la), create, Upper(root, Pdx1(la)));
      DirectoryEntry(Tables(), k);
      WalkIs39(old(Tables()), Tables(), root, la);
      if t1 == None {
        return None, first;
      }
      ZeroIsAbsent();
      ghost var middle := TableSpots();
      LowerBelongs(Tables(), k);
      label Second:
      t0, second := NextTable(t1.value, Pdx0(la), create, Lower(root, Pdx1(la), Pdx0(la)));
      DirectoryEntry(Tables(), k);
      WalkIs39(old(Tables()), Tables(), root, la);
      made := first + second;
      assert first + second == {} ==> first == {} && second == {};
      GrownTwice(old(mem), old(ref), old(free), old@Second(mem), old@Second(ref), old@Second(free), mem, ref, free,
        first, second);
      if t0 == None {
        return None, made;
      }
      WayJoined(start, middle, TableSpots(), k, first, second);
      return Some(Slot(t0.value, Ptx(la))), made;
    }

    /** The page mapped at `la`, and the place of its entry. */
    method GetPage(root: nat, la: nat) returns (page: Option<nat>, pte: Option<Slot>)
      requires TreeOk() && root in roots
      modifies this
      ensures TreeOk() && Tables() == old(Tables()) && ref == old(ref) && free == old(free)
      ensures supply == old(supply)
      ensures page == if KeyOf(root, la) in Mappings() then Some(Mappings()[KeyOf(root, la)].page) else None
      ensures LeafTable(Tables(), KeyOf(root, la)) == if pte.Some? then Some(pte.value.table) else None
      ensures pte.Some? ==> pte.value.index == Ptx(la)
      ensures pte == Slot39(mem, root, la)
      ensures Translate(mem, root, la) == if page.Some? then Some(page.value * 4096 + la % 4096) else None
    {
      hide Slot39, Translate, KeyOf, View, LeafTable, WellFormed, Same39, Missing, Granted, After, Given, Way, Standing;
      ghost var made;
      UpToTwo(supply);
      pte, made := GetPte(root, la, false);
      KeyInRange(Tables(), root, la);
      LookupInView(Tables(), KeyOf(root, la));
      PageIs39(Tables(), root, la);
      if pte.Some? && Present(mem[pte.value.table][pte.value.index]) {
        return Some(Target(mem[pte.value.table][pte.value.index])), pte;
      }
      return None, pte;
    }

    /** Overwrite the last-level entry of key k. */
    method WriteLeaf(pte: Slot, entry: nat, ghost k: Key)
      requires TreeOk() && InRange(Tables(), k) && LeafTable(Tables(), k) == Some(pte.table) && pte.index == k.t
      modifies this`mem
      ensures TreeOk() && mem.Keys == old(mem.Keys) && LeafTable(Tables(), k) == Some(pte.table)
      ensures Mappings() ==
        if Present(entry) then old(Mappings())[k := Mapping(Target(entry), Flags(entry))] else old(Mappings()) - {k}
      ensures mem[pte.table][pte.index] == entry && TableSpots() == old(TableSpots())
    {
      RewrittenStanding(Tables(), k, entry);
      RewrittenView(Tables(), k, entry);
      RewrittenLookup(Tables(), k, entry, k);
      mem := Write(mem, pte.table, pte.index, entry);
      assert Tables() == Rewritten(old(Tables()), k, entry);
    }

    /**
     Drop the mapping at an entry, and free its page if this was the last reference to it.
     `held` are pages that carry one reference beyond their mappings.
     */
    method PageRemovePte(pte: Slot, ghost k: Key, ghost held: set<nat>)
      requires ValidBut(held) && InRange(Tables(), k)
      requires LeafTable(Tables(), k) == Some(pte.table) && pte.index == k.t
      modifies this
      ensures ValidBut(held) && roots == old(roots) && mem.Keys == old(mem.Keys) && supply == old(supply)
      ensures LeafTable(Tables(), k) == Some(pte.table)
      ensures Mappings() == old(Mappings()) - {k}
      ensures free == old(free) + LastUse(old(Mappings()), k, held)
    {
      hide WellFormed, View, Target, LeafTable, Lookup, Counted, Users, Keys;
      ghost var view := Mappings();
      LookupInView(Tables(), k);
      if Present(mem[pte.table][pte.index]) {
        var page := Target(mem[pte.table][pte.index]);
        RemoveCounts(view, ref, frames - mem.Keys, frames - mem.Keys - free, k, held);
        ref := ref[page := ref[page] - 1];
        if ref[page] == 0 {
          FreePage(page);
        }
        assert frames - mem.Keys - free == frames - mem.Keys - old(free) - LastUse(view, k, held);
        WriteLeaf(pte, 0, k);
      } else {
        assert view - {k} == view;
      }
    }

    method PageRemove(root: nat, la: nat)
      requires Valid() && root in roots
      modifies this
      ensures Valid() && roots == old(roots) && mem.Keys == old(mem.Keys) && supply == old(supply)
      ensures Mappings() == old(Mappings()) - {KeyOf(root, la)}
      ensures free == old(free) + LastUse(old(Mappings()), KeyOf(root, la), {})
      ensures Unmaps39(old(mem), mem, roots, root, la / 4096) && Translate(mem, root, la) == None
    {
      hide Unmaps39, Translate, Slot39, Same39, WellFormed, View, Target, LeafTable, Lookup, Counted, Users, Keys;
      ghost var k := KeyOf(root, la);
      var pte;
      ghost var made;
      pte, made := GetPte(root, la, false);
      LookupInView(Tables(), k);
      if pte.Some? {
        PageRemovePte(pte.value, k, {});
      } else {
        assert Mappings() - {k} == Mappings();
      }
      RemovedIs39(old(Tables()), Tables(), root, la);
    }

    /** One turn of the loop below: the entry for `la` is written, not counted. */
    method BootMapPage(root: nat, la: nat, frame: nat, perm: nat) returns (ok: bool)
      requires TreeOk() && Stocked() && root in roots && perm < 1024
      modifies this
      ensures TreeOk() && Stocked() && roots == old(roots)
      ensures var m := Missing(old(Tables()), KeyOf(root, la));
        && (ok <==> Granted(old(supply), m)) && supply == After(old(supply), m)
        && Grown(old(mem), old(ref), old(free), mem, ref, free, Given(old(supply), m))
      ensures ok ==> TableSpots() == old(TableSpots()) + Way(KeyOf(root, la))
      ensures ok ==> Mappings() == old(Mappings())[KeyOf(root, la) := Mapping(frame, Or(PTE_V, perm))]
      ensures !ok ==> Mappings() == old(Mappings())
    {
      hide Slot39, Same39, Apart, View, LeafTable, Lookup, Or, PteCreate, KeyOf, Target, Missing, Granted, After,
        Given, Fresh, Standing, Way;
      var pte;
      ghost var made, k;
      k := KeyOf(root, la);
      TablesApart(Tables(), ref, free, frames);
      KeyInRange(Tables(), root, la);
      MissingIs(Tables(), k);
      NothingAsked(supply);
      pte, made := GetPte(root, la, true);
      if pte == None {
        return false;
      }
      InsertedEntry(frame, perm);
      KeyInRange(Tables(), root, la);
      WriteLeaf(pte.value, PteCreate(frame, Or(PTE_V, perm)), k);
      ok := true;
    }

    /**
     Map the pages of a segment one after the other, without counting; false stands for a failed assertion.  It fails
     exactly if the tables that the segment needs and that are not there are not all granted; `pages` of its pages are
     mapped, as many as there are tables for.
     */
    method BootMapSegment(root: nat, la0: nat, size: nat, pa0: nat, perm: nat) returns (ok: bool, ghost pages: nat)
      requires TreeOk() && Stocked() && root in roots && perm < 1024 && PgOff(la0) == PgOff(pa0)
      modifies this
      ensures TreeOk() && Stocked() && roots == old(roots)
      ensures ok <==> Granted(old(supply), TablesFor(old(Tables()), root, RoundDown(la0), PagesIn(la0, size)))
      ensures pages <= PagesIn(la0, size) && (ok <==> pages == PagesIn(la0, size))
      ensures Granted(old(supply), TablesFor(old(Tables()), root, RoundDown(la0), pages))
      ensures !ok ==> !Granted(old(supply), TablesFor(old(Tables()), root, RoundDown(la0), pages + 1))
      ensures var m := TablesFor(old(Tables()), root, RoundDown(la0), if ok then pages else pages + 1);
        && supply == After(old(supply), m)
        && Grown(old(mem), old(ref), old(free), mem, ref, free, Given(old(supply), m))
      ensures ok ==> TableSpots() == old(TableSpots()) + Ways(root, RoundDown(la0), pages)
      ensures Mappings() == Segment(old(Mappings()), root, RoundDown(la0), Ppn(pa0), pages, perm)
      ensures ok ==> pages == (la0 + size - 1) / 4096 - la0 / 4096 + 1
      ensures pages <= 0x800_0000 ==>
        Maps39(old(mem), mem, roots, root, la0 / 4096, pages, pa0 / 4096, Or(1, perm))
      ensures ok && pages <= 0x800_0000 ==>
        forall la: nat :: la0 <= la < la0 + size ==> Translate(mem, root, la) == Some(pa0 + (la - la0))
    {
      hide WellFormed, Segment, Maps39, Translate, Slot39, Apart, View, LeafTable, Lookup, Or, PteCreate, KeyOf, Grown,
        Target, Missing, Granted, After, Given, Fresh,
        Standing, Way, TablesFor, Ways, PagesIn;
      var n: nat := PagesIn(la0, size);
      var la, pa := RoundDown(la0), RoundDown(pa0);
      ghost var start, spots, tables := Tables(), TableSpots(), 0;
      pages := 0;
      TablesApart(Tables(), ref, free, frames);
      SegmentStarts(Tables(), ref, free, supply, root, la);
      SegmentNext(Mappings(), root, la, Ppn(pa0), 0, perm);
      while n > 0
        invariant TreeOk() && Stocked() && roots == old(roots) && WellFormed(Tables())
        invariant n + pages == PagesIn(la0, size)
        invariant la == RoundDown(la0) + pages * PGSIZE && pa == RoundDown(pa0) + pages * PGSIZE
        invariant tables == TablesFor(start, root, RoundDown(la0), pages)
        invariant Granted(old(supply), tables) && supply == After(old(supply), tables)
        invariant Grown(old(mem), old(ref), old(free), mem, ref, free, Given(old(supply), tables))
        invariant TableSpots() == spots + Ways(root, RoundDown(la0), pages)
        invariant Mappings() == Segment(old(Mappings()), root, RoundDown(la0), Ppn(pa0), pages, perm)
        decreases n
      {
        SegmentNext(old(Mappings()), root, RoundDown(la0), Ppn(pa0), pages, perm);
        KeyInRange(Tables(), root, la);
        ghost var m := Missing(Tables(), KeyOf(root, la));
        SegmentStep(start, Tables(), root, RoundDown(la0), pages);
        AskMore(old(supply), tables, m);
        label Turn:
        ok := BootMapPage(root, la, Ppn(pa), perm);
        GrownJoin(old(mem), old(ref), old(free), old@Turn(mem), old@Turn(ref), old@Turn(free), mem, ref, free,
          Given(old(supply), tables), Given(old@Turn(supply), m));
        TablesApart(Tables(), ref, free, frames);
        if !ok {
          SegmentIs39(start, Tables(), root, la0, pa0, pages, perm);
          TablesGrow(start, root, RoundDown(la0), pages + 1, PagesIn(la0, size));
          GrantedLess(old(supply), tables + m, TablesFor(start, root, RoundDown(la0), PagesIn(la0, size)));
          return;
        }
        n, la, pa := n - 1, la + PGSIZE, pa + PGSIZE;
        pages, tables := pages + 1, tables + m;
      }
      ok := true;
      SegmentTranslates(start, Tables(), root, la0, size, pa0, pages, perm);
    }

    /** Map `page` at `la`; false stands for -E_NO_MEM. */
    method PageInsert(root: nat, page: nat, la: nat, perm: nat) returns (ok: bool, ghost made: set<nat>)
      requires Valid() && Stocked() && root in roots && perm < 1024
      requires page in frames - mem.Keys - free
      modifies this
      ensures Valid() && Stocked() && roots == old(roots)
      ensures var m := Missing(old(Tables()), KeyOf(root, la));
        && (ok <==> Granted(old(supply), m)) && supply == After(old(supply), m) && made == Given(old(supply), m)
      ensures page !in free
      ensures mem.Keys == old(mem.Keys) + made && made <= old(free) && |made| <= 2
      ensures ok ==> Mappings() == old(Mappings())[KeyOf(root, la) := Mapping(page, Or(PTE_V, perm))]
      ensures !ok ==> Mappings() == old(Mappings()) && forall p :: p in frames - mem.Keys ==> ref[p] == old(ref[p])
      ensures free == old(free) - made + if ok then Displaced(old(Mappings()), KeyOf(root, la), page) else {}
      ensures ok ==> Maps39(old(mem), mem, roots, root, la / 4096, 1, page, Or(1, perm))
      ensures ok ==> Translate(mem, root, la) == Some(page * 4096 + la % 4096)
      ensures !ok ==> Same39(old(mem), mem, roots)
    {
      hide Maps39, Same39, Translate, Slot39, Apart, View, Target, LeafTable, Lookup, Counted, Users, Keys, Or,
        PteCreate, LastUse, Displaced, Grown,
        Missing, Granted, After, Given, Fresh, WellFormed;
      NothingAsked(supply);
      TablesApart(Tables(), ref, free, frames);
      KeyInRange(Tables(), root, la);
      MissingIs(Tables(), KeyOf(root, la));
      ghost var k := KeyOf(root, la);
      var pte;
      pte, made := GetPte(root, la, true);
      StillCounted(Mappings(), old(mem), old(ref), old(free), mem, ref, free, made, frames);
      if pte == None {
        return false, made;
      }
      NotDisplaced(Mappings(), k, page);
      FreshMore(supply, free, Displaced(Mappings(), k, page));
      MapPage(pte.value, page, perm, k);
      TablesApart(Tables(), ref, free, frames);
      InsertedIs39(old(Tables()), Tables(), root, la, page, perm);
      return true, made;
    }

    /** The second half of page_insert: count the page in, see the old mapping off, write the entry. */
    method MapPage(pte: Slot, page: nat, perm: nat, ghost k: Key)
      requires Valid() && InRange(Tables(), k) && perm < 1024
      requires LeafTable(Tables(), k) == Some(pte.table) && pte.index == k.t
      requires page in frames - mem.Keys - free
      modifies this
      ensures Valid() && roots == old(roots) && mem.Keys == old(mem.Keys) && supply == old(supply)
      ensures Mappings() == old(Mappings())[k := Mapping(page, Or(PTE_V, perm))]
      ensures free == old(free) + Displaced(old(Mappings()), k, page)
    {
      hide WellFormed, View, Target, LeafTable, Lookup, Counted, Users, Keys, Or, PteCreate;
      ghost var view := Mappings();
      LookupInView(Tables(), k);
      HoldCounts(view, ref, frames - mem.Keys, frames - mem.Keys - free, page);
      ref := ref[page := ref[page] + 1];
      if Present(mem[pte.table][pte.index]) {
        var p := Target(mem[pte.table][pte.index]);
        if p == page {
          ref := ref[page := ref[page] - 1];
          assert ref == old(ref);
        } else {
          PageRemovePte(pte, k, {page});
        }
      }
      NotDisplaced(view, k, page);
      MapCounts(view, Mappings(), ref, frames - mem.Keys, frames - mem.Keys - free, k, Mapping(page, Or(PTE_V, perm)));
      InsertedEntry(page, perm);
      WriteLeaf(pte, PteCreate(page, Or(PTE_V, perm)), k);
    }
  }

  // ---------------------------------------------------------------- what the page allocator answers

  /** The next answer; an allocator with nothing left refuses. */
  function Next(supply: seq<Option<nat>>): Option<nat> {
    if supply == [] then None else supply[0]
  }

  function Rest(supply: seq<Option<nat>>): seq<Option<nat>> {
    if supply == [] then [] else supply[1..]
  }

  ghost predicate Fresh(supply: seq<Option<nat>>, free: set<nat>) {
    && (forall i :: 0 <= i < |supply| && supply[i].Some? ==> supply[i].value in free)
    && (forall i, j :: 0 <= i < j < |supply| && supply[i].Some? ==> supply[i] != supply[j])
  }

  lemma FreshMore(supply: seq<Option<nat>>, free: set<nat>, more: set<nat>)
    requires Fresh(supply, free)
    ensures Fresh(supply, free + more)
  {
  }

  /** m requests in a row are met. */
  ghost predicate Granted(supply: seq<Option<nat>>, m: nat) {
    m == 0 || (Next(supply).Some? && Granted(Rest(supply), m - 1))
  }

  /** What is left after up to m requests, the last of them the first that is refused. */
  ghost function After(supply: seq<Option<nat>>, m: nat): seq<Option<nat>> {
    if m == 0 then supply else if Next(supply).None? then Rest(supply) else After(Rest(supply), m - 1)
  }

  /** The frames that they bring. */
  ghost function Given(supply: seq<Option<nat>>, m: nat): set<nat> {
    if m == 0 || Next(supply).None? then {} else {Next(supply).value} + Given(Rest(supply), m - 1)
  }

  /** How many tables are missing on the way to a last-level entry. */
  ghost function Missing(tr: Tree, k: Key): nat
    requires WellFormed(tr) && InRange(tr, k)
  {
    if !Present(tr.mem[k.root][k.d1]) then 2
    else if !Present(tr.mem[Target(tr.mem[k.root][k.d1])][k.d0]) then 1
    else 0
  }

  lemma MissingIs(tr: Tree, k: Key)
    requires WellFormed(tr) && InRange(tr, k)
    ensures Missing(tr, k) == 0 <==> LeafTable(tr, k).Some?
    ensures !Present(tr.mem[k.root][k.d1]) ==> Missing(tr, k) == 2
    ensures Present(tr.mem[k.root][k.d1]) && Missing(tr, k) > 0 ==>
      Missing(tr, k) == 1 && Target(tr.mem[k.root][k.d1]) in tr.mem && |tr.mem[Target(tr.mem[k.root][k.d1])]| == ENTRIES
      && !Present(tr.mem[Target(tr.mem[k.root][k.d1])][k.d0])
  {
    DirectoryEntry(tr, k);
  }

  lemma UpToTwo(supply: seq<Option<nat>>)
    ensures Granted(supply, 0) && After(supply, 0) == supply && Given(supply, 0) == {}
    ensures Granted(supply, 1) <==> Next(supply).Some?
    ensures After(supply, 1) == Rest(supply)
    ensures Given(supply, 1) == if Next(supply).Some? then {Next(supply).value} else {}
    ensures Granted(supply, 2) <==> Next(supply).Some? && Next(Rest(supply)).Some?
    ensures After(supply, 2) == if Next(supply).None? then Rest(supply) else Rest(Rest(supply))
    ensures Given(supply, 2) == if Next(supply).None? then {} else {Next(supply).value} + Given(Rest(supply), 1)
  {
    assert Granted(Rest(Rest(supply)), 0) && After(Rest(Rest(supply)), 0) == Rest(Rest(supply));
  }

  lemma NothingAsked(supply: seq<Option<nat>>)
    ensures Granted(supply, 0) && After(supply, 0) == supply
  {
  }

  lemma {:induction false} AskMore(supply: seq<Option<nat>>, a: nat, m: nat)
    requires Granted(supply, a)
    ensures Granted(supply, a + m) <==> Granted(After(supply, a), m)
    ensures After(supply, a + m) == After(After(supply, a), m)
    ensures Given(supply, a + m) == Given(supply, a) + Given(After(supply, a), m)
    decreases a
  {
    if a > 0 {
      AskMore(Rest(supply), a - 1, m);
    }
  }

  lemma {:induction false} GrantedLess(supply: seq<Option<nat>>, a: nat, b: nat)
    requires a <= b
    ensures Granted(supply, b) ==> Granted(supply, a)
    decreases a
  {
    if a > 0 {
      GrantedLess(Rest(supply), a - 1, b - 1);
    }
  }

  // ---------------------------------------------------------------- the tables of a segment

  /** The tables on the way to the first n pages of a segment. */
  ghost function Ways(root: nat, la: nat, n: nat): set<Spot> {
    if n == 0 then {} else Ways(root, la, n - 1) + Way(KeyOf(root, la + (n - 1) * PGSIZE))
  }

  /** How many of them are not there. */
  ghost function TablesFor(tr: Tree, root: nat, la: nat, n: nat): nat
    requires WellFormed(tr)
  {
    |Ways(root, la, n) - Standing(tr)|
  }

  lemma {:induction false} TablesGrow(tr: Tree, root: nat, la: nat, m: nat, n: nat)
    requires WellFormed(tr) && m <= n
    ensures Ways(root, la, m) <= Ways(root, la, n) && TablesFor(tr, root, la, m) <= TablesFor(tr, root, la, n)
  {
    hide WellFormed, Standing, Way, KeyOf;
    if m < n {
      TablesGrow(tr, root, la, m, n - 1);
      SubsetSize(Ways(root, la, n - 1) - Standing(tr), Ways(root, la, n) - Standing(tr));
    }
  }

  lemma SubsetSize(a: set<Spot>, b: set<Spot>)
    requires a <= b
    ensures |a| <= |b|
  {
    assert |b| == |a| + |b - a| by {
      assert b == a + (b - a);
    }
  }

  lemma SegmentStarts(tr: Tree, ref: map<nat, int>, free: set<nat>, supply: seq<Option<nat>>, root: nat, la: nat)
    requires WellFormed(tr)
    ensures TablesFor(tr, root, la, 0) == 0 && Ways(root, la, 0) == {}
    ensures Granted(supply, 0) && After(supply, 0) == supply
    ensures Grown(tr.mem, ref, free, tr.mem, ref, free, Given(supply, 0))
  {
    hide WellFormed, Standing, Grown;
    assert Ways(root, la, 0) - Standing(tr) == {};
    NothingGrown(tr.mem, ref, free);
  }

  lemma NothingGrown(mem: map<nat, seq<nat>>, ref: map<nat, int>, free: set<nat>)
    ensures Grown(mem, ref, free, mem, ref, free, {})
  {
  }

  /** What is missing for one more page is what the table walk for it finds missing now. */
  lemma SegmentStep(start: Tree, now: Tree, root: nat, la: nat, n: nat)
    requires WellFormed(start) && WellFormed(now) && InRange(now, KeyOf(root, la + n * PGSIZE))
    requires Standing(now) == Standing(start) + Ways(root, la, n)
    ensures TablesFor(start, root, la, n + 1) ==
      TablesFor(start, root, la, n) + Missing(now, KeyOf(root, la + n * PGSIZE))
    ensures Ways(root, la, n + 1) == Ways(root, la, n) + Way(KeyOf(root, la + n * PGSIZE))
  {
    var k := KeyOf(root, la + n * PGSIZE);
    hide WellFormed, Standing, Way, KeyOf, Missing;
    MissingIsWay(now, k);
    var had, more := Ways(root, la, n) - Standing(start), Way(k) - Standing(now);
    assert Ways(root, la, n + 1) - Standing(start) == had + more;
    assert had !! more;
  }

  lemma MissingIsWay(tr: Tree, k: Key)
    requires WellFormed(tr) && InRange(tr, k)
    ensures Missing(tr, k) == |Way(k) - Standing(tr)|
  {
    hide WellFormed, Standing, Present;
    MissingIs(tr, k);
    LeafStands(tr, k);
    var up, low := Upper(k.root, k.d1), Lower(k.root, k.d1, k.d0);
    if up in Standing(tr) {
      assert Way(k) - Standing(tr) == if low in Standing(tr) then {} else {low};
    } else {
      assert Way(k) - Standing(tr) == {up, low};
    }
  }

  // ---------------------------------------------------------------- mappings and counts

  /** A page is never freed by being mapped, least of all when it is mapped onto itself. */
  lemma NotDisplaced(view: map<Key, Mapping>, k: Key, page: nat)
    ensures page !in Displaced(view, k, page)
    ensures k !in view || view[k].page == page ==> Displaced(view, k, page) == {}
  {
  }

  /** The page that loses its last reference when key k is unmapped. */
  ghost function LastUse(view: map<Key, Mapping>, k: Key, held: set<nat>): set<nat> {
    if k in view && |Users(view, view[k].page)| == 1 && view[k].page !in held then {view[k].page} else {}
  }

  /** The page that loses its last reference when `page` is mapped at key k; never `page` itself. */
  ghost function Displaced(view: map<Key, Mapping>, k: Key, page: nat): set<nat> {
    LastUse(view, k, {page})
  }

  ghost predicate Counted(view: map<Key, Mapping>, ref: map<nat, int>, counted: set<nat>, mappable: set<nat>,
      held: set<nat>) {
    && mappable <= counted
    && (forall p :: p in counted ==> p in ref && ref[p] == |Users(view, p)| + (if p in held then 1 else 0))
    && (forall k :: k in view ==> view[k].page in mappable)
  }

  lemma LookupInView(tr: Tree, k: Key)
    requires WellFormed(tr) && InRange(tr, k)
    ensures LeafTable(tr, k).Some? ==> LeafTable(tr, k).value in tr.mem && |tr.mem[LeafTable(tr, k).value]| == ENTRIES
    ensures k in View(tr) <==> LeafTable(tr, k).Some? && Present(tr.mem[LeafTable(tr, k).value][k.t])
    ensures k in View(tr) ==> View(tr)[k].page == Target(tr.mem[LeafTable(tr, k).value][k.t])
  {
    assert Key(k.root, k.d1, k.d0, k.t) in Keys(tr.roots);
  }

  /** Decrementing the count of the page that key k maps, and freeing it at zero, fits unmapping k. */
  lemma RemoveCounts(view: map<Key, Mapping>, ref: map<nat, int>, counted: set<nat>, mappable: set<nat>, k: Key,
      held: set<nat>)
    requires Counted(view, ref, counted, mappable, held) && k in view
    ensures var p := view[k].page;
      && p in counted && p in ref && (ref[p] == 1 <==> LastUse(view, k, held) == {p}) && LastUse(view, k, held) <= {p}
      && Counted(view - {k}, ref[p := ref[p] - 1], counted, mappable - LastUse(view, k, held), held)
  {
    var p := view[k].page;
    assert k in Users(view, p);
    forall q | q in counted
      ensures ref[p := ref[p] - 1][q] == |Users(view - {k}, q)| + (if q in held then 1 else 0)
    {
      UsersAfterRemove(view, k, q);
    }
    if |Users(view, p)| == 1 {
      forall j | j in view - {k}
        ensures view[j].page != p
      {
        if view[j].page == p {
          OnlyOne(Users(view, p), j, k);
        }
      }
    }
  }

  lemma NothingMapped(tr: Tree, root: nat)
    requires tr == Tree(map[root := Zeros()], {root}, map[root := 2], map[])
    ensures WellFormed(tr) && View(tr) == map[]
  {
    assert forall i :: 0 <= i < ENTRIES ==> !Present(tr.mem[root][i]);
  }

  function RoundDown(a: nat): nat {
    a - a % PGSIZE
  }

  /** How many pages the bytes la, ..., la + size - 1 touch. */
  function PagesIn(la: nat, size: nat): nat {
    (size + PgOff(la) + PGSIZE - 1) / PGSIZE
  }

  lemma KeyInRange(tr: Tree, root: nat, la: nat)
    requires root in tr.roots
    ensures InRange(tr, KeyOf(root, la)) && KeyOf(root, la).t == Ptx(la)
  {
  }

  /** The first n pages of a segment mapped in order. */
  ghost function Segment(view: map<Key, Mapping>, root: nat, la: nat, page: nat, n: nat, perm: nat): map<Key, Mapping> {
    if n == 0 then view
    else
      var k := KeyOf(root, la + (n - 1) * PGSIZE);
      Segment(view, root, la, page, n - 1, perm)[k := Mapping(page + (n - 1), Or(PTE_V, perm))]
  }

  lemma SegmentNext(view: map<Key, Mapping>, root: nat, la: nat, page: nat, n: nat, perm: nat)
    ensures Segment(view, root, la, page, 0, perm) == view
    ensures Segment(view, root, la, page, n + 1, perm) ==
      Segment(view, root, la, page, n, perm)[KeyOf(root, la + n * PGSIZE) := Mapping(page + n, Or(PTE_V, perm))]
  {
  }

  /** A segment of at most 2^27 pages maps page j of it to frame page + j, and nothing else anew. */
  lemma {:induction false} SegmentMaps(view: map<Key, Mapping>, root: nat, la: nat, page: nat, n: nat, perm: nat,
      k: Key)
    requires la % PGSIZE == 0 && n <= 0x800_0000
    ensures forall j :: 0 <= j < n && k == KeyOf(root, la + j * PGSIZE) ==>
      && k in Segment(view, root, la, page, n, perm)
      && Segment(view, root, la, page, n, perm)[k] == Mapping(page + j, Or(PTE_V, perm))
    ensures (forall j :: 0 <= j < n ==> k != KeyOf(root, la + j * PGSIZE)) ==>
      (k in Segment(view, root, la, page, n, perm) <==> k in view)
      && (k in view ==> Segment(view, root, la, page, n, perm)[k] == view[k])
  {
    if n > 0 {
      SegmentMaps(view, root, la, page, n - 1, perm, k);
      forall j | 0 <= j < n - 1 && KeyOf(root, la + j * PGSIZE) == KeyOf(root, la + (n - 1) * PGSIZE)
        ensures false
      {
        KeyIsPage(root, la + j * PGSIZE, la + (n - 1) * PGSIZE);
        assert (la + j * PGSIZE) / PGSIZE == la / PGSIZE + j;
        assert (la + (n - 1) * PGSIZE) / PGSIZE == la / PGSIZE + (n - 1);
        Apart27(la / PGSIZE, j, n - 1);
      }
    }
  }

  // ---------------------------------------------------------------- what the processor finds

  lemma WalkIs39(was: Tree, tr: Tree, root: nat, la: nat)
    requires WellFormed(was) && WellFormed(tr) && was.roots == tr.roots && View(tr) == View(was) && root in tr.roots
    ensures var leaf := LeafTable(tr, KeyOf(root, la));
      Slot39(tr.mem, root, la) == if leaf.Some? then Some(Slot(leaf.value, Ptx(la))) else None
    ensures Same39(was.mem, tr.mem, tr.roots)
  {
    SlotIs39(tr, root, la);
    SameIs39(was, tr);
  }

  lemma PageIs39(tr: Tree, root: nat, la: nat)
    requires WellFormed(tr) && root in tr.roots
    ensures var k := KeyOf(root, la);
      Translate(tr.mem, root, la) == if k in View(tr) then Some(View(tr)[k].page * 4096 + la % 4096) else None
  {
    hide Pte39, WellFormed;
    ViewIs39(tr, root, la);
    if KeyOf(root, la) in View(tr) {
      EntryFrame(View(tr)[KeyOf(root, la)].page, View(tr)[KeyOf(root, la)].flags);
    }
  }

  lemma EntryFrame(page: nat, flags: nat)
    requires flags < 1024
    ensures (page * 1024 + flags) / 1024 == page
  {
  }

  lemma RemovedIs39(was: Tree, tr: Tree, root: nat, la: nat)
    requires WellFormed(was) && WellFormed(tr) && was.roots == tr.roots && root in tr.roots
    requires View(tr) == View(was) - {KeyOf(root, la)}
    ensures Unmaps39(was.mem, tr.mem, tr.roots, root, la / 4096) && Translate(tr.mem, root, la) == None
  {
    hide Pte39, WellFormed, View;
    UnmapsIs39(was, tr, root, la);
    assert OnPage(la, la / 4096);
  }

  lemma InsertedIs39(was: Tree, tr: Tree, root: nat, la: nat, page: nat, perm: nat)
    requires WellFormed(was) && WellFormed(tr) && was.roots == tr.roots && root in tr.roots && perm < 1024
    requires View(tr) == View(was)[KeyOf(root, la) := Mapping(page, Or(PTE_V, perm))]
    ensures Maps39(was.mem, tr.mem, tr.roots, root, la / 4096, 1, page, Or(1, perm))
    ensures Translate(tr.mem, root, la) == Some(page * 4096 + la % 4096)
  {
    hide Pte39, WellFormed, View, Or, Maps39;
    MapsIs39(was, tr, root, la, Mapping(page, Or(PTE_V, perm)));
    assert Pow2(10) == 1024;
    OrBounded(1, perm, 10);
    EntryFrame(page, Or(1, perm));
  }

  /** The rounding finds the pages that the bytes la, ..., la + size - 1 lie on, and no other. */
  lemma PagesCover(la: nat, size: nat)
    ensures PagesIn(la, size) == (la + size - 1) / 4096 - la / 4096 + 1
  {
  }

  lemma SegmentIs39(was: Tree, tr: Tree, root: nat, la0: nat, pa0: nat, n: nat, perm: nat)
    requires WellFormed(was) && WellFormed(tr) && was.roots == tr.roots && root in tr.roots
    requires View(tr) == Segment(View(was), root, RoundDown(la0), Ppn(pa0), n, perm)
    ensures n <= 0x800_0000 ==>
      Maps39(was.mem, tr.mem, tr.roots, root, la0 / 4096, n, pa0 / 4096, Or(1, perm))
  {
    hide Pte39, WellFormed, View, KeyOf, OnPage, Or, Segment;
    if n <= 0x800_0000 {
      forall r: nat, lb: nat | r in tr.roots
        ensures forall q: nat :: la0 / 4096 <= q < la0 / 4096 + n && r == root && OnPage(lb, q) ==>
          Pte39(tr.mem, r, lb) == Some((pa0 / 4096 + (q - la0 / 4096)) * 1024 + Or(1, perm))
        ensures (r != root || forall q: nat :: la0 / 4096 <= q < la0 / 4096 + n ==> !OnPage(lb, q)) ==>
          Pte39(tr.mem, r, lb) == Pte39(was.mem, r, lb)
      {
        SegmentWalk(was, tr, root, la0, pa0, n, perm, r, lb);
      }
    }
  }

  lemma SegmentWalk(was: Tree, tr: Tree, root: nat, la0: nat, pa0: nat, n: nat, perm: nat, r: nat, lb: nat)
    requires WellFormed(was) && WellFormed(tr) && was.roots == tr.roots && r in tr.roots && n <= 0x800_0000
    requires View(tr) == Segment(View(was), root, RoundDown(la0), Ppn(pa0), n, perm)
    ensures forall q: nat :: la0 / 4096 <= q < la0 / 4096 + n && r == root && OnPage(lb, q) ==>
      Pte39(tr.mem, r, lb) == Some((pa0 / 4096 + (q - la0 / 4096)) * 1024 + Or(1, perm))
    ensures (r != root || forall q: nat :: la0 / 4096 <= q < la0 / 4096 + n ==> !OnPage(lb, q)) ==>
      Pte39(tr.mem, r, lb) == Pte39(was.mem, r, lb)
  {
    hide Pte39, WellFormed, View, KeyOf, OnPage, Or, Segment;
    var k := KeyOf(r, lb);
    KeyHasRoot(r, lb);
    ViewIs39(was, r, lb);
    ViewIs39(tr, r, lb);
    SegmentMaps(View(was), root, RoundDown(la0), Ppn(pa0), n, perm, k);
    forall j: nat | j < n
      ensures k == KeyOf(root, RoundDown(la0) + j * PGSIZE) <==> r == root && OnPage(lb, la0 / 4096 + j)
    {
      var lj := RoundDown(la0) + j * PGSIZE;
      assert lj / 4096 == la0 / 4096 + j;
      KeyHasRoot(root, lj);
      KeyIsPage(root, lb, lj);
    }
    forall q: nat | la0 / 4096 <= q < la0 / 4096 + n && r == root && OnPage(lb, q)
      ensures Pte39(tr.mem, r, lb) == Some((pa0 / 4096 + (q - la0 / 4096)) * 1024 + Or(1, perm))
    {
      var j := q - la0 / 4096;
      assert q == la0 / 4096 + j;
      assert k == KeyOf(root, RoundDown(la0) + j * PGSIZE);
    }
  }

  /** The bytes of a segment are in order those of the memory it is mapped to. */
  lemma SegmentTranslates(was: Tree, tr: Tree, root: nat, la0: nat, size: nat, pa0: nat, n: nat, perm: nat)
    requires WellFormed(was) && WellFormed(tr) && was.roots == tr.roots && root in tr.roots
    requires la0 % 4096 == pa0 % 4096 && perm < 1024 && n == PagesIn(la0, size)
    requires View(tr) == Segment(View(was), root, RoundDown(la0), Ppn(pa0), n, perm)
    ensures n == (la0 + size - 1) / 4096 - la0 / 4096 + 1
    ensures n <= 0x800_0000 ==> Maps39(was.mem, tr.mem, tr.roots, root, la0 / 4096, n, pa0 / 4096, Or(1, perm))
    ensures n <= 0x800_0000 ==>
      forall la: nat :: la0 <= la < la0 + size ==> Translate(tr.mem, root, la) == Some(pa0 + (la - la0))
  {
    hide Pte39, Or, WellFormed, View, Segment;
    PagesCover(la0, size);
    SegmentIs39(was, tr, root, la0, pa0, n, perm);
    assert Pow2(10) == 1024;
    OrBounded(1, perm, 10);
    if n <= 0x800_0000 {
      forall la: nat | la0 <= la < la0 + size
        ensures Translate(tr.mem, root, la) == Some(pa0 + (la - la0))
      {
        var q := la / 4096;
        assert la0 / 4096 <= q <= (la0 + size - 1) / 4096;
        assert OnPage(la, q);
        var frame := pa0 / 4096 + (q - la0 / 4096);
        EntryFrame(frame, Or(1, perm));
        assert frame * 4096 + la % 4096 == pa0 + (la - la0);
      }
    }
  }

  lemma Apart27(p: nat, i: nat, j: nat)
    requires i < j < 0x800_0000
    ensures (p + i) % 0x800_0000 != (p + j) % 0x800_0000
  {
  }

  lemma TablesApart(tr: Tree, ref: map<nat, int>, free: set<nat>, frames: set<nat>)
    requires Apart(tr, ref, free, frames)
    ensures free !! tr.mem.Keys && ref.Keys == frames && free <= frames && WellFormed(tr)
  {
  }

  /** Frames that became tables drop out of the count. */
  lemma StillCounted(view: map<Key, Mapping>, mem: map<nat, seq<nat>>, ref: map<nat, int>, free: set<nat>,
      mem': map<nat, seq<nat>>, ref': map<nat, int>, free': set<nat>, made: set<nat>, frames: set<nat>)
    requires Grown(mem, ref, free, mem', ref', free', made) && free !! mem.Keys && ref.Keys == frames && free <= frames
    requires Counted(view, ref, frames - mem.Keys, frames - mem.Keys - free, {})
    ensures Counted(view, ref', frames - mem'.Keys, frames - mem'.Keys - free', {})
    ensures frames - mem'.Keys - free' == frames - mem.Keys - free
    ensures mem'.Keys == mem.Keys + made && made <= free && free' == free - made
    ensures forall p :: p in frames - mem'.Keys ==> p in ref && p in ref' && ref'[p] == ref[p]
  {
  }

  lemma HoldCounts(view: map<Key, Mapping>, ref: map<nat, int>, counted: set<nat>, mappable: set<nat>, page: nat)
    requires Counted(view, ref, counted, mappable, {}) && page in counted
    ensures page in ref && Counted(view, ref[page := ref[page] + 1], counted, mappable, {page})
  {
  }

  /** Mapping `m.page` at k uses up the reference held for it, or replaces the one that k gave it. */
  lemma MapCounts(before: map<Key, Mapping>, view: map<Key, Mapping>, ref: map<nat, int>, counted: set<nat>,
      mappable: set<nat>, k: Key, m: Mapping)
    requires m.page in mappable
    requires if k in view then view[k].page == m.page && Counted(view, ref, counted, mappable, {})
             else Counted(view, ref, counted, mappable, {m.page})
    requires view == before || view == before - {k}
    ensures Counted(view[k := m], ref, counted, mappable, {}) && view[k := m] == before[k := m]
  {
    forall p | p in counted
      ensures ref[p] == |Users(view[k := m], p)|
    {
      UsersAfterInsert(view, k, m, p);
    }
  }

  lemma InsertedEntry(page: nat, perm: nat)
    requires perm < 1024
    ensures var pte := PteCreate(page, Or(PTE_V, perm));
      Present(pte) && Target(pte) == page && Flags(pte) == Or(PTE_V, perm)
  {
    assert Pow2(10) == 1024;
    OrBounded(PTE_V, perm, 10);
    PteRoundTrip(page, Or(PTE_V, perm));
    OrAssoc(1, 1, perm);
    assert Or(0, 0) == 0 && Or(1, 1) == 1;
  }

  lemma OnlyOne(s: set<Key>, j: Key, k: Key)
    requires |s| == 1 && j in s && k in s
    ensures j == k
  {
    assert |s - {j}| == 0;
  }

  /** Frames `made` moved from the allocator's stock to the tables, each with reference count 1. */
  ghost predicate Grown(mem: map<nat, seq<nat>>, ref: map<nat, int>, free: set<nat>, mem': map<nat, seq<nat>>,
      ref': map<nat, int>, free': set<nat>, made: set<nat>) {
    && made <= free && free' == free - made && mem'.Keys == mem.Keys + made
    && ref'.Keys == ref.Keys + made
    && (forall p :: p in ref && p !in made ==> ref'[p] == ref[p])
  }

  lemma GrownTwice(mem: map<nat, seq<nat>>, ref: map<nat, int>, free: set<nat>, mem1: map<nat, seq<nat>>,
      ref1: map<nat, int>, free1: set<nat>, mem2: map<nat, seq<nat>>, ref2: map<nat, int>, free2: set<nat>, a: set<nat>,
      b: set<nat>)
    requires Grown(mem, ref, free, mem1, ref1, free1, a) && Grown(mem1, ref1, free1, mem2, ref2, free2, b)
    requires |a| <= 1 && |b| <= 1
    ensures Grown(mem, ref, free, mem2, ref2, free2, a + b) && |a + b| <= 2
  {
    UnionSize(a, b);
    GrownJoin(mem, ref, free, mem1, ref1, free1, mem2, ref2, free2, a, b);
  }

  lemma GrownJoin(mem: map<nat, seq<nat>>, ref: map<nat, int>, free: set<nat>, mem1: map<nat, seq<nat>>,
      ref1: map<nat, int>, free1: set<nat>, mem2: map<nat, seq<nat>>, ref2: map<nat, int>, free2: set<nat>, a: set<nat>,
      b: set<nat>)
    requires Grown(mem, ref, free, mem1, ref1, free1, a) && Grown(mem1, ref1, free1, mem2, ref2, free2, b)
    ensures Grown(mem, ref, free, mem2, ref2, free2, a + b)
  {
    TakenTwice(free, a, b);
    AddedTwice(mem.Keys, a, b);
    AddedTwice(ref.Keys, a, b);
  }

  lemma TakenTwice(free: set<nat>, a: set<nat>, b: set<nat>)
    requires a <= free && b <= free - a
    ensures free - a - b == free - (a + b) && a + b <= free
  {
  }

  lemma AddedTwice(keys: set<nat>, a: set<nat>, b: set<nat>)
    ensures keys + a + b == keys + (a + b)
  {
  }

  lemma UnionSize(a: set<nat>, b: set<nat>)
    ensures |a + b| <= |a| + |b|
  {
    assert |a + b| + |a * b| == |a| + |b|;
  }

  /** The tables form a tree, their frames are not the allocator's, and each but the roots is referenced once. */
  ghost predicate Apart(tr: Tree, ref: map<nat, int>, free: set<nat>, frames: set<nat>) {
    && WellFormed(tr)
    && ref.Keys == frames && tr.mem.Keys <= frames && free <= frames && free !! tr.mem.Keys
    && (forall t :: t in tr.mem && t !in tr.roots ==> ref[t] == 1)
  }

  lemma TableRow(tr: Tree, ref: map<nat, int>, free: set<nat>, frames: set<nat>, t: nat)
    requires Apart(tr, ref, free, frames) && t in tr.mem
    ensures WellFormed(tr) && |tr.mem[t]| == ENTRIES && t in tr.level && free !! tr.mem.Keys && free <= frames
    ensures ref.Keys == frames
  {
  }

  lemma HungIs(tr: Tree, t: nat, i: nat, p: nat)
    requires WellFormed(tr) && t in tr.mem && tr.level[t] > 0 && i < ENTRIES && p !in tr.mem
    ensures Hung(tr, t, i, p, Or(PTE_U, PTE_V)) ==
      Tree(Write(tr.mem[p := Zeros()], t, i, PteCreate(p, Or(PTE_U, PTE_V))), tr.roots,
           tr.level[p := tr.level[t] - 1], tr.owner[p := Slot(t, i)])
  {
  }

  lemma HungKeepsApart(tr: Tree, ref: map<nat, int>, free: set<nat>, frames: set<nat>, t: nat, i: nat, p: nat)
    requires Apart(tr, ref, free, frames) && t in tr.mem && tr.level[t] > 0 && i < ENTRIES && p in free
    requires !Present(tr.mem[t][i])
    ensures var after := Hung(tr, t, i, p, Or(PTE_U, PTE_V));
      && Apart(after, ref[p := 1], free - {p}, frames) && View(after) == View(tr)
      && Grown(tr.mem, ref, free, after.mem, ref[p := 1], free - {p}, {p})
      && t in after.mem && |after.mem[t]| == ENTRIES && Present(after.mem[t][i])
      && (forall u :: u in tr.mem && u != t ==> u in after.mem && after.mem[u] == tr.mem[u])
  {
    hide WellFormed, Or, PteCreate, Target, View, Present;
    HangFlags();
    TableRow(tr, ref, free, frames, t);
    HungIsWellFormed(tr, t, i, p, Or(PTE_U, PTE_V));
    HungKeepsView(tr, t, i, p, Or(PTE_U, PTE_V));
    HungEntry(tr, t, i, p);
  }

  /** The first steps of a walk. */
  lemma DirectoryEntry(tr: Tree, k: Key)
    requires WellFormed(tr) && InRange(tr, k)
    ensures k.root in tr.mem && |tr.mem[k.root]| == ENTRIES && tr.level[k.root] == 2
    ensures !Present(tr.mem[k.root][k.d1]) ==> LeafTable(tr, k) == None
    ensures Present(tr.mem[k.root][k.d1]) ==>
      var t1 := Target(tr.mem[k.root][k.d1]);
      && t1 in tr.mem && |tr.mem[t1]| == ENTRIES && tr.level[t1] == 1 && t1 != k.root
      && LeafTable(tr, k) == if Present(tr.mem[t1][k.d0]) then Some(Target(tr.mem[t1][k.d0])) else None
  {
  }

  lemma HangStanding(tr: Tree, t: nat, i: nat, p: nat, s: Spot)
    requires WellFormed(tr) && t in tr.mem && tr.level[t] > 0 && i < ENTRIES && p !in tr.mem
    requires !Present(tr.mem[t][i]) && Belongs(tr, s, t, i)
    ensures WellFormed(Hung(tr, t, i, p, Or(PTE_U, PTE_V)))
    ensures Standing(Hung(tr, t, i, p, Or(PTE_U, PTE_V))) == Standing(tr) + {s}
  {
    hide WellFormed, Hung, Standing, Belongs, Or;
    HangFlags();
    HungStanding(tr, t, i, p, Or(PTE_U, PTE_V), s);
  }

  /** Where the tables on the way to an entry belong. */
  lemma UpperBelongs(tr: Tree, k: Key)
    requires WellFormed(tr) && InRange(tr, k)
    ensures Belongs(tr, Upper(k.root, k.d1), k.root, k.d1)
    ensures Upper(k.root, k.d1) in Standing(tr) <==> Present(tr.mem[k.root][k.d1])
  {
    hide Standing;
    SpotsOf(tr.roots, k);
    LeafStands(tr, k);
  }

  lemma LowerBelongs(tr: Tree, k: Key)
    requires WellFormed(tr) && InRange(tr, k) && Present(tr.mem[k.root][k.d1])
    ensures Belongs(tr, Lower(k.root, k.d1, k.d0), Target(tr.mem[k.root][k.d1]), k.d0)
    ensures Lower(k.root, k.d1, k.d0) in Standing(tr) <==> LeafTable(tr, k).Some?
  {
    hide Standing;
    SpotsOf(tr.roots, k);
    LeafStands(tr, k);
  }

  lemma WayJoined(start: set<Spot>, middle: set<Spot>, end: set<Spot>, k: Key, first: set<nat>, second: set<nat>)
    requires middle == start + if first == {} then {} else {Upper(k.root, k.d1)}
    requires end == middle + if second == {} then {} else {Lower(k.root, k.d1, k.d0)}
    requires first == {} ==> Upper(k.root, k.d1) in start
    requires second == {} ==> Lower(k.root, k.d1, k.d0) in middle
    ensures end == start + Way(k)
  {
  }

  lemma ZeroIsAbsent()
    ensures !Present(0)
  {
  }

  lemma HungIsEmpty(tr: Tree, t: nat, i: nat, p: nat)
    requires WellFormed(tr) && t in tr.mem && tr.level[t] > 0 && i < ENTRIES && p !in tr.mem
    ensures var after := Hung(tr, t, i, p, Or(PTE_U, PTE_V));
      && p in after.mem && |after.mem[p]| == 512 && (forall j :: 0 <= j < 512 ==> after.mem[p][j] == 0)
      && t in after.mem && after.mem[t] == tr.mem[t][i := p * 1024 + 17]
      && Present(after.mem[t][i]) && Target(after.mem[t][i]) == p
  {
    HungEntry(tr, t, i, p);
    HangFlags();
    PteValue(p, 17);
    assert Or(1, 17) == 17 by {
      assert Or(0, 8) == 8;
    }
  }

  lemma HungEntry(tr: Tree, t: nat, i: nat, p: nat)
    requires WellFormed(tr) && t in tr.mem && tr.level[t] > 0 && i < ENTRIES && p !in tr.mem
    ensures var after := Hung(tr, t, i, p, Or(PTE_U, PTE_V));
      && after.mem.Keys == tr.mem.Keys + {p}
      && Present(after.mem[t][i]) && Target(after.mem[t][i]) == p
      && (forall u :: u in tr.mem && u != t ==> after.mem[u] == tr.mem[u])
  {
    HangFlags();
    PteRoundTrip(p, Or(PTE_U, PTE_V));
  }

  lemma HangFlags()
    ensures Or(PTE_U, PTE_V) == 0x11
  {
    assert Or(0, 0) == 0;
    assert Or(1, 0) == 1;
    assert Or(2, 0) == 2;
    assert Or(4, 0) == 4;
    assert Or(8, 0) == 8;
  }
}
