/**
 The SLOB heap allocator of lab4/kern/mm/kmalloc.c.

 Addresses count units of sizeof(slob_t) = 16 bytes.  `units` and `next` are the two fields of the
 headers in memory, `slobfree` is the roving pointer, and the static block `arena` anchors the list.
 The ghost fields say what the memory stands for.
 */
module Slob {
  import opened Words
  import opened FreeRuns

  const SLOB_UNIT: nat := 16
  const PAGE_SIZE: nat := 4096
  const PAGE_UNITS: nat := 256      // SLOB_UNITS(PAGE_SIZE)

  function SlobUnits(size: nat): nat {
    (size + SLOB_UNIT - 1) / SLOB_UNIT
  }

  /** ALIGN in units; alignments below a unit constrain nothing. */
  function AlignUp(a: nat, align: nat): nat {
    if align == 0 then a else (a + align - 1) / align * align
  }

  // ---------------------------------------------------------------- places on the circle

  ghost predicate OnRing(runs: seq<Run>, a: nat) {
    exists i :: 0 <= i < |runs| && runs[i].start == a
  }

  /** The search of slob_free may stop at exactly one place. */
  lemma StopsAt(runs: seq<Run>, p: nat, b: Run, c: nat)
    requires Separated(runs) && |runs| > 0 && Fits(runs, p, b) && c < |runs|
    ensures var cur, nxt := runs[c].start, Around(runs, c);
      (cur < b.start < nxt) || (cur >= nxt && (b.start > cur || b.start < nxt)) <==> c == Before(runs, p)
  {
    assert forall i :: 0 <= i < |runs| ==> runs[i].start != b.start;
  }

  function Succ(runs: seq<Run>, c: nat): nat
    requires c < |runs|
  {
    if c + 1 < |runs| then c + 1 else 0
  }

  /** Steps along the circle from c to t. */
  function Steps(runs: seq<Run>, c: nat, t: nat): nat
    requires c < |runs| && t < |runs|
  {
    if c <= t then t - c else t - c + |runs|
  }

  lemma StepsFall(runs: seq<Run>, c: nat, t: nat)
    requires c < |runs| && t < |runs| && c != t
    ensures Succ(runs, c) < |runs| && Steps(runs, Succ(runs, c), t) == Steps(runs, c, t) - 1
    ensures runs[Succ(runs, c)].start == Around(runs, c)
  {
  }

  // ---------------------------------------------------------------- what the memory stands for

  /** Unit u belongs to an allocated block; `live` maps the blocks to their lengths. */
  ghost predicate Live(live: map<nat, nat>, u: nat) {
    exists a :: a in live && In(Run(a, live[a]), u)
  }

  /**
   The units obtained so far, arena and pages, are each free or allocated and never both; allocated
   blocks are disjoint and carry their length, unless their owner wrote over it; nothing is next to arena.
   */
  ghost predicate IsHeap(runs: seq<Run>, units: map<nat, int>, arena: nat, live: map<nat, nat>, owned: set<nat>,
      pages: nat, scribbled: set<nat>) {
    && (forall u :: u in owned <==> Free(runs, u) || Live(live, u))
    && (forall u :: !(Free(runs, u) && Live(live, u)))
    && (forall a :: a in live ==> live[a] > 1)
    && (forall a, c, u :: a in live && c in live && In(Run(a, live[a]), u) && In(Run(c, live[c]), u) ==> a == c)
    && (forall a :: a in live && a !in scribbled ==> a in units && units[a] == live[a])
    && (forall u :: u in owned ==> u + 1 != arena && u != arena + 1)
    && arena in owned && |owned| == 1 + PAGE_UNITS * pages
  }

  /** A page that may be added: aligned, new, not next to arena, and not 0, which is a refusal. */
  ghost predicate PageOk(page: nat, owned: set<nat>, arena: nat) {
    && page > 0 && page % PAGE_UNITS == 0
    && (forall u :: In(Run(page, PAGE_UNITS), u) ==> u !in owned)
    && page + PAGE_UNITS != arena && page != arena + 1
  }

  ghost function PageSet(page: nat, n: nat): set<nat> {
    if n == 0 then {} else PageSet(page, n - 1) + {page + n - 1}
  }

  lemma {:induction false} PageSetIs(page: nat, n: nat)
    ensures forall u :: u in PageSet(page, n) <==> In(Run(page, n), u)
    ensures |PageSet(page, n)| == n
  {
    if n > 0 {
      var s := PageSet(page, n - 1);
      PageSetIs(page, n - 1);
      AddOne(s, page + n - 1);
      assert PageSet(page, n) == s + {page + n - 1};
    }
  }

  lemma AddOne(s: set<nat>, u: nat)
    requires u !in s
    ensures |s + {u}| == |s| + 1
  {
  }

  lemma AddMany(s: set<nat>, t: set<nat>)
    requires s !! t
    ensures |s + t| == |s| + |t|
  {
  }

  lemma AllocHeap(runs: seq<Run>, units: map<nat, int>, arena: nat, live: map<nat, nat>, owned: set<nat>, pages: nat,
      scribbled: set<nat>, runs': seq<Run>, units': map<nat, int>, a: nat, need: nat)
    requires IsHeap(runs, units, arena, live, owned, pages, scribbled) && need > 1
    requires forall u :: In(Run(a, need), u) ==> Free(runs, u)
    requires forall u :: Free(runs', u) <==> Free(runs, u) && !In(Run(a, need), u)
    requires forall c :: c in units && !Free(runs, c) ==> c in units' && units'[c] == units[c]
    requires a in units' && units'[a] == need
    ensures a !in live && IsHeap(runs', units', arena, live[a := need], owned, pages, scribbled)
  {
    hide Free;
    var more := live[a := need];
    assert In(Run(a, need), a);
    assert a in live ==> In(Run(a, live[a]), a);
    forall u
      ensures Live(more, u) <==> Live(live, u) || In(Run(a, need), u)
    {
      if Live(live, u) {
        var c :| c in live && In(Run(c, live[c]), u);
        assert c in more && In(Run(c, more[c]), u);
      }
      if In(Run(a, need), u) {
        assert a in more && In(Run(a, more[a]), u);
      }
    }
    forall c | c in live && c !in scribbled
      ensures c in units' && units'[c] == more[c]
    {
      assert In(Run(c, live[c]), c);
    }
  }

  lemma FreeHeap(runs: seq<Run>, units: map<nat, int>, arena: nat, live: map<nat, nat>, owned: set<nat>, pages: nat,
      scribbled: set<nat>, runs': seq<Run>, units': map<nat, int>, a: nat)
    requires IsHeap(runs, units, arena, live, owned, pages, scribbled) && a in live
    requires forall u :: Free(runs', u) <==> Free(runs, u) || In(Run(a, live[a]), u)
    requires forall c :: c in units && c != a && !Free(runs, c) ==> c in units' && units'[c] == units[c]
    ensures IsHeap(runs', units', arena, live - {a}, owned, pages, scribbled - {a})
  {
    hide Free;
    var fewer := live - {a};
    forall u
      ensures Live(fewer, u) <==> Live(live, u) && !In(Run(a, live[a]), u)
    {
      if Live(live, u) && !In(Run(a, live[a]), u) {
        var c :| c in live && In(Run(c, live[c]), u);
        assert c in fewer && In(Run(c, fewer[c]), u);
      }
      if Live(fewer, u) {
        var c :| c in fewer && In(Run(c, fewer[c]), u);
        assert c in live && In(Run(c, live[c]), u);
      }
    }
    forall c | c in fewer && c !in scribbled - {a}
      ensures c in units' && units'[c] == fewer[c]
    {
      assert In(Run(c, live[c]), c);
    }
    assert In(Run(a, live[a]), a);
  }

  lemma GrowHeap(runs: seq<Run>, units: map<nat, int>, arena: nat, live: map<nat, nat>, owned: set<nat>, pages: nat,
      scribbled: set<nat>, runs': seq<Run>, units': map<nat, int>, page: nat)
    requires IsHeap(runs, units, arena, live, owned, pages, scribbled) && PageOk(page, owned, arena)
    requires forall u :: Free(runs', u) <==> Free(runs, u) || In(Run(page, PAGE_UNITS), u)
    requires forall c :: c in units && c != page && !Free(runs, c) ==> c in units' && units'[c] == units[c]
    ensures IsHeap(runs', units', arena, live, owned + PageSet(page, PAGE_UNITS), pages + 1, scribbled)
  {
    hide Free, In, Live, PageSet;
    HeapAsides(runs, units, arena, live, owned, pages, scribbled, units', page);
    PageSetIs(page, PAGE_UNITS);
    AddMany(owned, PageSet(page, PAGE_UNITS));
  }

  /** What a new page does not touch: the sizes of the blocks in use, and arena. */
  lemma HeapAsides(runs: seq<Run>, units: map<nat, int>, arena: nat, live: map<nat, nat>, owned: set<nat>, pages: nat,
      scribbled: set<nat>, units': map<nat, int>, page: nat)
    requires IsHeap(runs, units, arena, live, owned, pages, scribbled) && PageOk(page, owned, arena)
    requires forall c :: c in units && c != page && !Free(runs, c) ==> c in units' && units'[c] == units[c]
    ensures forall c :: c in live && c !in scribbled ==> c in units' && units'[c] == live[c]
    ensures forall u: nat :: In(Run(page, PAGE_UNITS), u) ==> u + 1 != arena && u != arena + 1
  {
    hide Free;
    assert In(Run(page, PAGE_UNITS), page);
    forall c | c in live && c !in scribbled
      ensures c in units' && units'[c] == live[c]
    {
      assert In(Run(c, live[c]), c);
    }
    assert !In(Run(page, PAGE_UNITS), arena);
  }


  // ---------------------------------------------------------------- room for a request

  /** Block r has room for `need` units after alignment. */
  predicate Room(r: Run, need: nat, align: nat) {
    r.len >= need + (AlignUp(r.start, align) - r.start)
  }

  /** Block i is still to be looked at when the search stands at k and started behind s. */
  predicate Todo(i: nat, k: nat, s: nat) {
    if k <= s then k <= i <= s else i >= k || i <= s
  }

  ghost predicate HasRoom(runs: seq<Run>, need: nat, align: nat) {
    exists i :: 0 <= i < |runs| && Room(runs[i], need, align)
  }

  /** There is a block of at least n units. */
  ghost predicate LongEnough(runs: seq<Run>, n: nat) {
    exists i :: 0 <= i < |runs| && runs[i].len >= n
  }

  lemma RoomIsLength(runs: seq<Run>, need: nat)
    ensures HasRoom(runs, need, 0) <==> LongEnough(runs, need)
  {
    if i :| 0 <= i < |runs| && runs[i].len >= need {
      assert Room(runs[i], need, 0);
    }
  }

  /** The alignments that ALIGN can deal with, up to a page; 0 asks for none. */
  ghost predicate Alignment(align: nat) {
    align in {0, 1, 2, 4, 8, 16, 32, 64, 128, 256}
  }

  lemma Multiple(q: nat, m: nat)
    requires m > 0
    ensures (q * m) % m == 0
  {
    DivIs(q * m, m, q, 0);
    Euclid(q * m, m);
  }

  /** A page starts at a multiple of every alignment. */
  lemma PageIsMultiple(page: nat, m: nat) returns (q: nat)
    requires m in {1, 2, 4, 8, 16, 32, 64, 128, 256} && page % PAGE_UNITS == 0
    ensures page == q * m
  {
    var k := page / PAGE_UNITS;
    assert page == k * 256;
    q := k * Ratio(m);
  }

  function Ratio(m: nat): (r: nat)
    requires m in {1, 2, 4, 8, 16, 32, 64, 128, 256}
    ensures r * m == PAGE_UNITS && forall k: nat :: k * r * m == k * PAGE_UNITS
  {
    if m == 1 then 256 else if m == 2 then 128 else if m == 4 then 64 else if m == 8 then 32 else if m == 16 then 16
    else if m == 32 then 8 else if m == 64 then 4 else if m == 128 then 2 else 1
  }

  lemma NoMultipleBetween(p: nat, q: nat, m: nat, a: nat)
    requires p * m < a + m && a <= q * m && m > 0
    ensures p * m <= q * m
  {
    if p > q {
      MulMonotone(q + 1, p, m);
    } else {
      MulMonotone(p, q, m);
    }
  }

  /** Rounding up reaches the next multiple, and never skips past the start of a page. */
  lemma AlignUpBounds(a: nat, align: nat, page: nat)
    requires Alignment(align)
    ensures a <= AlignUp(a, align)
    ensures align > 0 ==> AlignUp(a, align) % align == 0 && AlignUp(a, align) < a + align
    ensures a <= page && page % PAGE_UNITS == 0 ==> AlignUp(a, align) <= page
  {
    if align > 0 {
      var p := (a + align - 1) / align;
      Euclid(a + align - 1, align);
      Multiple(p, align);
      if a <= page && page % PAGE_UNITS == 0 {
        var q := PageIsMultiple(page, align);
        NoMultipleBetween(p, q, align, a);
      }
    }
  }

  /** None of the blocks looked at so far has room. */
  ghost predicate NoneSoFar(runs: seq<Run>, need: nat, align: nat, k: nat, s: nat) {
    forall i :: 0 <= i < |runs| && !Todo(i, k, s) ==> !Room(runs[i], need, align)
  }

  lemma RoomIs(runs: seq<Run>, k: nat, need: nat, align: nat)
    requires k < |runs| && Alignment(align)
    ensures AlignUp(runs[k].start, align) >= runs[k].start
    ensures align > 0 ==> AlignUp(runs[k].start, align) % align == 0
    ensures Room(runs[k], need, align) <==> runs[k].len >= need + (AlignUp(runs[k].start, align) - runs[k].start)
    ensures Room(runs[k], need, align) ==> HasRoom(runs, need, align)
  {
    AlignUpBounds(runs[k].start, align, 0);
  }

  /** When the search is back at its start, every block has been looked at. */
  lemma LapEnds(runs: seq<Run>, need: nat, align: nat, k: nat, s: nat)
    requires Separated(runs) && k < |runs| && s < |runs| && !Room(runs[k], need, align)
    ensures runs[k].start == runs[s].start <==> k == s
    ensures forall f :: k == s && Todo(f, k, s) ==> f == k
    ensures k == s && NoneSoFar(runs, need, align, k, s) ==> !HasRoom(runs, need, align)
  {
    if k < s {
      assert End(runs[k]) < runs[s].start;
    } else if s < k {
      assert End(runs[s]) < runs[k].start;
    }
  }

  lemma NextStep(runs: seq<Run>, k: nat, s: nat)
    requires k < |runs| && s < |runs|
    ensures Succ(runs, k) < |runs| && runs[Succ(runs, k)].start == Around(runs, k) && Before(runs, Succ(runs, k)) == k
    ensures k != s ==> Steps(runs, Succ(runs, k), s) < Steps(runs, k, s)
  {
  }

  /** One step on: from the start of a lap everything is ahead, later one block less. */
  lemma NextTodo(runs: seq<Run>, need: nat, align: nat, k: nat, s: nat)
    requires k < |runs| && s < |runs|
    ensures k == s ==> forall f :: 0 <= f < |runs| ==> Todo(f, Succ(runs, k), s)
    ensures k == s ==> NoneSoFar(runs, need, align, Succ(runs, k), s)
    ensures k != s ==> forall f :: 0 <= f < |runs| && f != k && Todo(f, k, s) ==> Todo(f, Succ(runs, k), s)
    ensures k != s && NoneSoFar(runs, need, align, k, s) && !Room(runs[k], need, align) ==>
      NoneSoFar(runs, need, align, Succ(runs, k), s)
  {
  }

  lemma PageClear(runs: seq<Run>, units: map<nat, int>, arena: nat, live: map<nat, nat>, owned: set<nat>, pages: nat,
      scribbled: set<nat>, page: nat)
    requires IsHeap(runs, units, arena, live, owned, pages, scribbled) && PageOk(page, owned, arena)
    ensures Clear(runs, Run(page, PAGE_UNITS)) && page + PAGE_UNITS != arena && page != arena + 1
    ensures page % PAGE_UNITS == 0
  {
  }

  /** A stretch of free units lies in one block. */
  lemma {:induction false} FreeStretch(runs: seq<Run>, a: nat, n: nat) returns (i: nat)
    requires Separated(runs) && n > 0 && forall u :: In(Run(a, n), u) ==> Free(runs, u)
    ensures i < |runs| && runs[i].start <= a && a + n <= End(runs[i])
  {
    assert In(Run(a, n), a + n - 1);
    if n == 1 {
      i :| 0 <= i < |runs| && In(runs[i], a);
    } else {
      assert forall u :: In(Run(a, n - 1), u) ==> In(Run(a, n), u);
      i := FreeStretch(runs, a, n - 1);
      var j :| 0 <= j < |runs| && In(runs[j], a + n - 1);
      Neighbours(runs, i, j, a + n - 2);
    }
  }

  lemma Neighbours(runs: seq<Run>, i: nat, j: nat, u: nat)
    requires Separated(runs) && i < |runs| && j < |runs| && In(runs[i], u) && In(runs[j], u + 1)
    ensures i == j
  {
  }

  /** The block that a fresh page has become part of has room for any request that fits a page. */
  lemma PageRoom(runs: seq<Run>, page: nat, need: nat, align: nat) returns (f: nat)
    requires Separated(runs) && page % PAGE_UNITS == 0 && need <= PAGE_UNITS && Alignment(align)
    requires forall u :: In(Run(page, PAGE_UNITS), u) ==> Free(runs, u)
    ensures f < |runs| && Room(runs[f], need, align)
  {
    f := FreeStretch(runs, page, PAGE_UNITS);
    AlignUpBounds(runs[f].start, align, page);
  }

  /** The units that are free once `asks` requests for a page have been answered by `reply`. */
  ghost predicate Available(runs: seq<Run>, reply: Option<nat>, asks: nat, u: nat) {
    Free(runs, u) || In(PageOf(reply, asks), u)
  }

  function PageOf(reply: Option<nat>, asks: nat): Run {
    if asks > 0 && reply.Some? then Run(reply.value, PAGE_UNITS) else Run(0, 0)
  }

  ghost function Grown(owned: set<nat>, reply: Option<nat>, asks: nat): set<nat> {
    if asks > 0 && reply.Some? then owned + PageSet(reply.value, PAGE_UNITS) else owned
  }

  lemma GrownIs(owned: set<nat>, reply: Option<nat>, asks: nat)
    ensures forall u :: u in Grown(owned, reply, asks) <==> u in owned || In(PageOf(reply, asks), u)
  {
    if reply.Some? {
      PageSetIs(reply.value, PAGE_UNITS);
    }
  }

  /**
   Where the search stands at block k: no block so far has room; once a page was asked for, the free units are the
   old ones and the page's, and block f, still ahead, has room.
   */
  ghost predicate Searching(before: seq<Run>, runs: seq<Run>, need: nat, align: nat, reply: Option<nat>, asks: nat,
      k: nat, s: nat, f: nat) {
    && NoneSoFar(runs, need, align, k, s)
    && (asks == 0 ==> runs == before)
    && (asks > 0 ==> reply.Some? && !HasRoom(before, need, align)
                     && f < |runs| && Todo(f, k, s) && Room(runs[f], need, align))
    && (forall u :: Free(runs, u) <==> Available(before, reply, asks, u))
  }

  lemma SearchStarts(runs: seq<Run>, need: nat, align: nat, reply: Option<nat>, s: nat)
    requires s < |runs|
    ensures Searching(runs, runs, need, align, reply, 0, Succ(runs, s), s, 0)
  {
    hide Free;
    NextTodo(runs, need, align, s, s);
    Unanswered(runs, {}, reply, 0);
  }

  /** What a block with room, or the end of a lap without one, says about the request. */
  lemma SearchIs(before: seq<Run>, runs: seq<Run>, need: nat, align: nat, reply: Option<nat>, asks: nat, k: nat, s: nat,
      f: nat)
    requires Searching(before, runs, need, align, reply, asks, k, s, f) && k < |runs| && s < |runs| && Separated(runs)
    requires asks <= 1
    ensures forall u :: Free(runs, u) <==> Available(before, reply, asks, u)
    ensures asks == 0 ==> runs == before
    ensures asks == 0 && Room(runs[k], need, align) ==> HasRoom(before, need, align)
    ensures asks > 0 ==> reply.Some? && !HasRoom(before, need, align)
    ensures !Room(runs[k], need, align) && k == s ==> asks == 0 && !HasRoom(before, need, align)
    ensures runs[k].start == runs[s].start <==> k == s
  {
    hide Free, Room, Available;
    StartsDiffer(runs, k, s);
    if !Room(runs[k], need, align) {
      LapEnds(runs, need, align, k, s);
    }
  }

  /** Block k is the first one behind `slobfree`, in the order of the circle, that has room. */
  ghost predicate FirstWithRoom(runs: seq<Run>, slobfree: nat, need: nat, align: nat, k: nat) {
    && k < |runs| && Room(runs[k], need, align)
    && exists s :: 0 <= s < |runs| && runs[s].start == slobfree && NoneSoFar(runs, need, align, k, s)
  }

  /** The units at `a` were taken out of block k; the roving pointer rests on what precedes them. */
  ghost predicate Took(before: seq<Run>, k: nat, a: nat, need: nat, after: seq<Run>, slobfree: nat) {
    && k < |before| && before[k].start <= a && a + need <= End(before[k]) && need > 0
    && after == Carved(before, k, a - before[k].start, need)
    && slobfree == if a > before[k].start then before[k].start else before[Before(before, k)].start
  }

  lemma BeforeIs(runs: seq<Run>, p: nat)
    requires |runs| > 0 && p <= |runs|
    ensures Before(runs, p) == if p == 0 then |runs| - 1 else p - 1
  {
  }

  lemma TookIs(list: seq<Run>, k: nat, a: nat, need: nat, after: seq<Run>, slobfree: nat, align: nat)
    requires k < |list| && a == AlignUp(list[k].start, align) && Took(list, k, a, need, after, slobfree)
    ensures align == 0 ==> a == list[k].start && slobfree == list[Before(list, k)].start
  {
  }

  /** Block `a` is the first with room for `need` units, in the list as it was, or with the page that was asked for. */
  ghost predicate FirstFit(before: seq<Run>, rover: nat, reply: Option<nat>, asks: nat, need: nat, a: nat) {
    exists list: seq<Run>, at: nat, k: nat ::
      && FirstWithRoom(list, at, need, 0, k) && a == list[k].start
      && if asks == 0 then list == before && at == rover else reply.Some? && PageAdded(before, reply.value, list, at)
  }

  /** How many units kmalloc asks the heap for: the block with its header, or a node. */
  function Wanted(size: nat): nat {
    SlobUnits(if size < PAGE_SIZE - SLOB_UNIT then size + SLOB_UNIT else BIGBLOCK_SIZE)
  }

  /** The list and the roving pointer after slob_free put the page in. */
  ghost predicate PageAdded(before: seq<Run>, page: nat, after: seq<Run>, slobfree: nat) {
    exists p ::
      before != [] && Fits(before, p, Run(page, PAGE_UNITS)) && after == Inserted(before, p, Run(page, PAGE_UNITS))
      && slobfree == before[Before(before, p)].start
  }

  lemma FirstIs(before: seq<Run>, runs: seq<Run>, slobfree: nat, need: nat, align: nat, reply: Option<nat>, asks: nat,
      k: nat, s: nat, f: nat)
    requires Searching(before, runs, need, align, reply, asks, k, s, f) && k < |runs| && s < |runs|
    requires Room(runs[k], need, align)
    requires runs[s].start == slobfree
    ensures FirstWithRoom(runs, slobfree, need, align, k)
  {
    hide Free, Room, Available, NoneSoFar;
  }

  lemma SearchGrows(before: seq<Run>, runs: seq<Run>, need: nat, align: nat, reply: Option<nat>, k: nat, s: nat, f: nat)
    requires k < |runs| && k == s && f < |runs| && Room(runs[f], need, align) && reply.Some?
    requires !HasRoom(before, need, align)
    requires forall u :: Free(runs, u) <==> Free(before, u) || In(Run(reply.value, PAGE_UNITS), u)
    ensures Searching(before, runs, need, align, reply, 1, Succ(runs, k), s, f)
  {
    hide Free, Room, HasRoom;
    NextTodo(runs, need, align, k, s);
    forall u: nat
      ensures Free(runs, u) <==> Available(before, reply, 1, u)
    {
    }
  }

  lemma SearchSteps(before: seq<Run>, runs: seq<Run>, need: nat, align: nat, reply: Option<nat>, asks: nat, k: nat,
      s: nat, f: nat)
    requires Searching(before, runs, need, align, reply, asks, k, s, f) && k < |runs| && s < |runs| && k != s
    requires !Room(runs[k], need, align)
    ensures Searching(before, runs, need, align, reply, asks, Succ(runs, k), s, f)
  {
    hide Free, Room, HasRoom, NoneSoFar;
    NextTodo(runs, need, align, k, s);
  }

  // ---------------------------------------------------------------- big blocks

  /** A bigblock_t at `node`: `1 << order` pages from unit `pages` on. */
  datatype BigBlock = BigBlock(node: nat, order: nat, pages: nat)

  const BIGBLOCK_SIZE: nat := 24    // sizeof(bigblock_t)

  datatype Outcome = Panic | Null | Block(address: nat)

  /** The conversion from size_t to int. */
  function ToInt(size: nat): int {
    var w := size % 0x1_0000_0000;
    if w < 0x8000_0000 then w else w - 0x1_0000_0000
  }

  function Order(size: int): nat
    decreases if size > 0 then size else 0
  {
    if size > 4096 then 1 + Order(size / 2) else 0
  }

  /** The order is the least one that shifts the size down to a page. */
  lemma {:induction false} OrderIsLeast(size: int, k: nat)
    ensures size > 0 ==> size / Pow2(Order(size)) <= 4096
    ensures k < Order(size) ==> size / Pow2(k) > 4096
    decreases if size > 0 then size else 0
  {
    if size > 4096 {
      OrderIsLeast(size / 2, if k > 0 then k - 1 else 0);
      HalfDiv(size, Order(size / 2));
      if k > 0 {
        HalfDiv(size, k - 1);
      }
    }
  }

  /** The shift drops bits: the pages hold the request exactly when it is not just above a power of two times a page. */
  ghost predicate JustAbove(size: int, k: nat) {
    4096 * Pow2(k) < size < 4097 * Pow2(k)
  }

  lemma {:induction false} OrderHolds(size: int)
    ensures size <= PAGE_SIZE * Pow2(Order(size)) <==> !exists k :: JustAbove(size, k)
    decreases if size > 0 then size else 0
  {
    if size > 4096 {
      var o := Order(size);
      var d := Pow2(o);
      OrderIsLeast(size, o - 1);
      Euclid(size, d);
      if size > 4096 * d {
        MulMonotone(size / d, 4096, d);
        assert JustAbove(size, o);
      } else if k :| JustAbove(size, k) {
        var e := Pow2(k);
        assert size == e * 4096 + (size - e * 4096);
        DivIs(size, e, 4096, size - e * 4096);
        if k < o {
          OrderIsLeast(size, k);
        } else if o < k {
          Pow2Monotone(o, k);
        }
        assert false;
      }
    } else if k :| JustAbove(size, k) {
      assert false;
    }
  }

  /** A size that neither loses its upper half on the way to `int` nor its low bits in the shift. */
  ghost predicate Fitting(size: nat) {
    size < 0x8000_0000 && !exists k :: JustAbove(size, k)
  }

  /** The pages of a big block hold the request exactly for such a size. */
  lemma BigHolds(size: nat)
    ensures size <= PAGE_SIZE * Pow2(Order(ToInt(size))) <==> Fitting(size)
  {
    if size < 0x8000_0000 {
      assert ToInt(size) == size;
      OrderHolds(size);
    } else {
      IntOrder(ToInt(size));
      var o := Order(ToInt(size));
      Pow2Of19();
      if o < 19 {
        Pow2Monotone(o, 19);
      }
    }
  }

  /** An int is shifted at most 19 times, and 19 times only if it is positive. */
  lemma IntOrder(v: int)
    requires v < 0x8000_0000
    ensures Order(v) <= 19 && (v <= 0 ==> Order(v) == 0)
  {
    Pow2Of19();
    OrderIsLeast(v, 19);
    assert v >= 0 ==> v / 0x8_0000 < 4096;
  }

  lemma Pow2Of19()
    ensures Pow2(19) == 0x8_0000
  {
    assert Pow2(4) == 16 && Pow2(3) == 8;
    Pow2Sum(4, 4);
    Pow2Sum(8, 8);
    Pow2Sum(3, 16);
  }

  /** 2^31 bytes get a single page. */
  lemma TruncatedOrder()
    ensures Order(ToInt(0x8000_0000)) == 0 && !Fitting(0x8000_0000) && forall k :: !JustAbove(0x8000_0000, k)
  {
    forall k
      ensures !JustAbove(0x8000_0000, k)
    {
      NotBetween(k);
    }
  }

  /** No 4097 * 2^k exceeds 2^31 while 4096 * 2^k stays below it. */
  lemma NotBetween(k: nat)
    ensures !JustAbove(0x8000_0000, k)
  {
    Pow2Of19();
    if k < 19 {
      Pow2Monotone(k, 19);
    } else if k > 19 {
      Pow2Monotone(19, k);
    }
  }

  /** 8193 bytes get two pages, which hold 8192. */
  lemma OrderFallsShort()
    ensures Order(8193) == 1 && PAGE_SIZE * Pow2(Order(8193)) < 8193 && JustAbove(8193, 1)
  {
    assert Order(4096) == 0 && Pow2(1) == 2;
  }

  function Area(pages: nat, order: nat): Run {
    Run(pages, PAGE_UNITS * Pow2(order))
  }

  ghost predicate Apart(a: Run, b: Run) {
    forall u :: !(In(a, u) && In(b, u))
  }

  ghost predicate Outside(a: Run, owned: set<nat>) {
    forall u :: In(a, u) ==> u !in owned
  }

  ghost predicate ApartFromBig(a: Run, bigs: seq<BigBlock>) {
    forall i :: 0 <= i < |bigs| ==> Apart(Area(bigs[i].pages, bigs[i].order), a)
  }

  ghost predicate BigOk(b: BigBlock, live: map<nat, nat>, owned: set<nat>) {
    && b.node in live && live[b.node] == SlobUnits(BIGBLOCK_SIZE)
    && b.pages > 0 && b.pages % PAGE_UNITS == 0 && Outside(Area(b.pages, b.order), owned)
  }

  ghost predicate NodeOf(bigs: seq<BigBlock>, a: nat) {
    exists i :: 0 <= i < |bigs| && bigs[i].node == a
  }

  ghost predicate PagesOf(bigs: seq<BigBlock>, a: nat) {
    exists i :: 0 <= i < |bigs| && bigs[i].pages == a
  }

  /**
   Every big block has a node of its own in the heap and pages of its own outside it; only nodes lose their
   header.
   */
  ghost predicate IsBig(bigs: seq<BigBlock>, live: map<nat, nat>, owned: set<nat>, scribbled: set<nat>) {
    && (forall i :: 0 <= i < |bigs| ==> BigOk(bigs[i], live, owned))
    && (forall i, j :: 0 <= i < j < |bigs| ==>
          bigs[i].node != bigs[j].node && Apart(Area(bigs[i].pages, bigs[i].order), Area(bigs[j].pages, bigs[j].order)))
    && (forall a :: a in scribbled ==> NodeOf(bigs, a))
  }

  lemma BigAfterAlloc(bigs: seq<BigBlock>, live: map<nat, nat>, owned: set<nat>, scribbled: set<nat>, a: nat, n: nat,
      owned': set<nat>, page: Run)
    requires IsBig(bigs, live, owned, scribbled) && a !in live && ApartFromBig(page, bigs)
    requires forall u :: u in owned' ==> u in owned || In(page, u)
    ensures IsBig(bigs, live[a := n], owned', scribbled)
    ensures !NodeOf(bigs, a)
  {
    hide Pow2;
    forall i | 0 <= i < |bigs|
      ensures BigOk(bigs[i], live[a := n], owned')
    {
      assert BigOk(bigs[i], live, owned);
    }
  }

  lemma BigAdded(bigs: seq<BigBlock>, live: map<nat, nat>, owned: set<nat>, scribbled: set<nat>, b: BigBlock)
    requires IsBig(bigs, live, owned, scribbled) && BigOk(b, live, owned) && !NodeOf(bigs, b.node)
    requires ApartFromBig(Area(b.pages, b.order), bigs)
    ensures IsBig([b] + bigs, live, owned, scribbled + {b.node})
  {
    hide BigOk, Apart;
    var more := [b] + bigs;
    assert more[0] == b && forall i :: 0 < i < |more| ==> more[i] == bigs[i - 1];
    forall i, j | 0 <= i < j < |more|
      ensures more[i].node != more[j].node
      ensures Apart(Area(more[i].pages, more[i].order), Area(more[j].pages, more[j].order))
    {
      if i == 0 {
        ApartIsSymmetric(Area(more[j].pages, more[j].order), Area(b.pages, b.order));
      }
    }
    forall a | a in scribbled + {b.node}
      ensures NodeOf(more, a)
    {
      if a != b.node {
        var i :| 0 <= i < |bigs| && bigs[i].node == a;
        assert more[i + 1].node == a;
      }
    }
  }

  lemma ApartIsSymmetric(a: Run, b: Run)
    ensures Apart(a, b) <==> Apart(b, a)
  {
  }

  lemma BigRemoved(bigs: seq<BigBlock>, live: map<nat, nat>, owned: set<nat>, scribbled: set<nat>, i: nat)
    requires IsBig(bigs, live, owned, scribbled) && i < |bigs|
    ensures IsBig(bigs[..i] + bigs[i + 1..], live - {bigs[i].node}, owned, scribbled - {bigs[i].node})
  {
    hide Apart;
    var fewer := bigs[..i] + bigs[i + 1..];
    assert forall j :: 0 <= j < |fewer| ==> fewer[j] == bigs[if j < i then j else j + 1];
    forall j | 0 <= j < |fewer|
      ensures BigOk(fewer[j], live - {bigs[i].node}, owned)
    {
      assert BigOk(bigs[if j < i then j else j + 1], live, owned);
    }
    forall a | a in scribbled - {bigs[i].node}
      ensures NodeOf(fewer, a)
    {
      var j :| 0 <= j < |bigs| && bigs[j].node == a;
      assert fewer[if j < i then j else j - 1].node == a;
    }
  }

  /** Freeing a block that is no node. */
  lemma BigUntouched(bigs: seq<BigBlock>, live: map<nat, nat>, owned: set<nat>, scribbled: set<nat>, a: nat)
    requires IsBig(bigs, live, owned, scribbled) && !NodeOf(bigs, a)
    ensures IsBig(bigs, live - {a}, owned, scribbled - {a})
  {
    forall i | 0 <= i < |bigs|
      ensures BigOk(bigs[i], live - {a}, owned)
    {
      assert BigOk(bigs[i], live, owned) && bigs[i].node != a;
    }
  }

  /** What slob_free asks for holds of every allocated block. */
  lemma LiveClear(runs: seq<Run>, units: map<nat, int>, arena: nat, live: map<nat, nat>, owned: set<nat>, pages: nat,
      scribbled: set<nat>, a: nat)
    requires IsHeap(runs, units, arena, live, owned, pages, scribbled) && a in live
    ensures live[a] > 1 && Clear(runs, Run(a, live[a])) && a + live[a] != arena && a != arena + 1
    ensures a !in scribbled ==> a in units && units[a] == live[a]
  {
    var r := Run(a, live[a]);
    assert forall u :: In(r, u) ==> Live(live, u);
    assert In(r, a) && In(r, a + live[a] - 1);
  }

  /** The owner of a block writes over its header. */
  lemma Scribble(runs: seq<Run>, units: map<nat, int>, next: map<nat, nat>, slobfree: nat, arena: nat,
      live: map<nat, nat>, owned: set<nat>, pages: nat, scribbled: set<nat>, a: nat, x: int, y: nat)
    requires IsRing(runs, units, next, slobfree, arena) && IsHeap(runs, units, arena, live, owned, pages, scribbled)
    requires a in live
    ensures IsRing(runs, units[a := x], next[a := y], slobfree, arena)
    ensures IsHeap(runs, units[a := x], arena, live, owned, pages, scribbled + {a})
  {
    assert In(Run(a, live[a]), a) && Live(live, a) && !Free(runs, a);
    var u, n := units[a := x], next[a := y];
    forall i | 0 <= i < |runs|
      ensures Linked(runs, i, u, n)
    {
      assert Linked(runs, i, units, next);
      assert In(runs[i], runs[i].start) && Free(runs, runs[i].start);
    }
  }

  /** Whether or not slob_alloc found something, the big blocks stay what they are. */
  lemma BigAfterObtain(bigs: seq<BigBlock>, live: map<nat, nat>, owned: set<nat>, scribbled: set<nat>, r: Option<nat>,
      n: nat, reply: Option<nat>, asks: nat)
    requires IsBig(bigs, live, owned, scribbled) && (r.Some? ==> r.value !in live)
    requires reply.Some? ==> ApartFromBig(Run(reply.value, PAGE_UNITS), bigs)
    ensures r.None? && (asks == 0 || reply.None?) ==> IsBig(bigs, live, Grown(owned, reply, asks), scribbled)
    ensures r.Some? ==> IsBig(bigs, live[r.value := n], Grown(owned, reply, asks), scribbled) && !NodeOf(bigs, r.value)
  {
    hide IsBig, NodeOf, Apart;
    GrownIs(owned, reply, asks);
    NoApart(bigs);
    if r.Some? {
      BigAfterAlloc(bigs, live, owned, scribbled, r.value, n, Grown(owned, reply, asks), PageOf(reply, asks));
    }
  }

  lemma NoApart(bigs: seq<BigBlock>)
    ensures ApartFromBig(Run(0, 0), bigs)
  {
  }

  lemma Unanswered(runs: seq<Run>, owned: set<nat>, reply: Option<nat>, asks: nat)
    requires asks == 0 || reply.None?
    ensures forall u :: Available(runs, reply, asks, u) <==> Free(runs, u)
    ensures Grown(owned, reply, asks) == owned
  {
  }

  /**
   Pages for a big block: aligned, and touching neither the heap, nor other big blocks, nor the page obtained
   meanwhile.
   */
  ghost predicate PagesOk(pages: nat, order: nat, owned: set<nat>, bigs: seq<BigBlock>, reply: Option<nat>) {
    && pages > 0 && pages % PAGE_UNITS == 0 && Outside(Area(pages, order), owned)
    && ApartFromBig(Area(pages, order), bigs)
    && (reply.Some? ==> Apart(Run(reply.value, PAGE_UNITS), Area(pages, order)))
  }

  lemma BigRecorded(bigs: seq<BigBlock>, live: map<nat, nat>, owned: set<nat>, scribbled: set<nat>, b: BigBlock,
      reply: Option<nat>, asks: nat)
    requires IsBig(bigs, live, Grown(owned, reply, asks), scribbled) && !NodeOf(bigs, b.node)
    requires b.node in live && live[b.node] == SlobUnits(BIGBLOCK_SIZE) && PagesOk(b.pages, b.order, owned, bigs, reply)
    ensures IsBig([b] + bigs, live, Grown(owned, reply, asks), scribbled + {b.node})
  {
    hide IsBig, NodeOf, ApartFromBig, Area, Grown;
    GrownIs(owned, reply, asks);
    BigAdded(bigs, live, Grown(owned, reply, asks), scribbled, b);
  }

  /** No block of the heap can be mistaken for a big one. */
  lemma NotBig(runs: seq<Run>, units: map<nat, int>, arena: nat, live: map<nat, nat>, owned: set<nat>, pages: nat,
      scribbled: set<nat>, bigs: seq<BigBlock>, a: nat)
    requires IsHeap(runs, units, arena, live, owned, pages, scribbled) && IsBig(bigs, live, owned, scribbled)
    requires a in live
    ensures !PagesOf(bigs, a + 1)
  {
    assert In(Run(a, live[a]), a + 1) && Live(live, a + 1);
    forall i | 0 <= i < |bigs|
      ensures bigs[i].pages != a + 1
    {
      assert BigOk(bigs[i], live, owned);
      assert In(Area(bigs[i].pages, bigs[i].order), bigs[i].pages);
    }
  }

  /** A big block is found under its address only. */
  lemma PagesDiffer(bigs: seq<BigBlock>, live: map<nat, nat>, owned: set<nat>, scribbled: set<nat>, i: nat, j: nat)
    requires IsBig(bigs, live, owned, scribbled) && i < |bigs| && j < |bigs|
    ensures bigs[i].pages == bigs[j].pages <==> i == j
    ensures bigs[i].node in live && live[bigs[i].node] == SlobUnits(BIGBLOCK_SIZE)
  {
    assert BigOk(bigs[i], live, owned);
    assert In(Area(bigs[i].pages, bigs[i].order), bigs[i].pages)
      && In(Area(bigs[j].pages, bigs[j].order), bigs[j].pages);
    assert i < j ==> Apart(Area(bigs[i].pages, bigs[i].order), Area(bigs[j].pages, bigs[j].order));
    assert j < i ==> Apart(Area(bigs[j].pages, bigs[j].order), Area(bigs[i].pages, bigs[i].order));
  }

  lemma NoZeroPages(bigs: seq<BigBlock>, live: map<nat, nat>, owned: set<nat>, scribbled: set<nat>)
    requires IsBig(bigs, live, owned, scribbled)
    ensures !PagesOf(bigs, 0)
  {
    forall i | 0 <= i < |bigs|
      ensures bigs[i].pages != 0
    {
      assert BigOk(bigs[i], live, owned);
    }
  }

  lemma AlignedPages(bigs: seq<BigBlock>, live: map<nat, nat>, owned: set<nat>, scribbled: set<nat>, block: nat)
    requires IsBig(bigs, live, owned, scribbled)
    ensures PagesOf(bigs, block) ==> block % PAGE_UNITS == 0
  {
    if i :| 0 <= i < |bigs| && bigs[i].pages == block {
      assert BigOk(bigs[i], live, owned);
    }
  }

  /** A block that is no node still has its header. */
  lemma HeaderStands(bigs: seq<BigBlock>, live: map<nat, nat>, owned: set<nat>, scribbled: set<nat>, a: nat)
    requires IsBig(bigs, live, owned, scribbled) && !NodeOf(bigs, a)
    ensures a !in scribbled
  {
  }

  /** kfree recognises the block that kmalloc just returned, small or big. */
  lemma Answered(runs: seq<Run>, units: map<nat, int>, arena: nat, live: map<nat, nat>, owned: set<nat>, pages: nat,
      scribbled: set<nat>, bigs: seq<BigBlock>, before: seq<BigBlock>, a: nat, address: nat)
    requires IsHeap(runs, units, arena, live, owned, pages, scribbled) && IsBig(bigs, live, owned, scribbled)
    requires a in live
    requires (bigs == before && address == a + 1 && !NodeOf(bigs, a))
             || exists o :: bigs == [BigBlock(a, o, address)] + before
    ensures PagesOf(bigs, address) || (address == a + 1 && a in live && !NodeOf(bigs, a))
    ensures PagesOf(bigs, address) ==> |bigs| > 0 && bigs[0].pages == address && bigs[0].node == a
    ensures PagesOf(bigs, address) ==> bigs[..0] + bigs[1..] == before
    ensures !PagesOf(bigs, address) ==> bigs == before
    ensures address > 0
  {
    hide IsHeap, IsBig, NodeOf;
    NoZeroPages(bigs, live, owned, scribbled);
    NotBig(runs, units, arena, live, owned, pages, scribbled, bigs, a);
    if o :| bigs == [BigBlock(a, o, address)] + before {
      assert bigs[0] == BigBlock(a, o, address);
    }
  }

  lemma RingSeparated(runs: seq<Run>, units: map<nat, int>, next: map<nat, nat>, slobfree: nat, arena: nat)
    requires IsRing(runs, units, next, slobfree, arena)
    ensures Separated(runs)
  {
  }

  lemma Restored(before: seq<Run>, after: seq<Run>, reply: Option<nat>, asks: nat)
    requires Separated(before) && Separated(after)
    requires forall u :: Free(after, u) <==> Available(before, reply, asks, u)
    ensures asks == 0 ==> after == before
  {
    hide Free, Separated;
    if asks == 0 {
      Unanswered(before, {}, reply, asks);
      RunsAreCanonical(before, after);
    }
  }

  class Heap {
    const arena: nat
    var units: map<nat, int>
    var next: map<nat, nat>
    var slobfree: nat
    var bigblocks: seq<BigBlock>
    ghost var runs: seq<Run>
    ghost var live: map<nat, nat>
    ghost var owned: set<nat>
    ghost var pages: nat
    ghost var scribbled: set<nat>

    /**
     The memory holds a circular list, in address order with one wrap, of separated blocks, among them
     `slobfree` and `arena`.
     */
    ghost predicate Ring()
      reads this
    {
      IsRing(runs, units, next, slobfree, arena)
    }

    ghost predicate Valid()
      reads this
    {
      Ring() && IsHeap(runs, units, arena, live, owned, pages, scribbled)
    }

    /** The same with the list of big blocks. */
    ghost predicate Whole()
      reads this
    {
      Valid() && IsBig(bigblocks, live, owned, scribbled)
    }

    constructor (arena: nat)
      ensures this.arena == arena && runs == [Run(arena, 1)] && live == map[] && pages == 0 && bigblocks == []
      ensures Whole()
    {
      bigblocks := [];
      this.arena := arena;
      units, next, slobfree := map[arena := 1], map[arena := arena], arena;
      runs, live, owned, pages, scribbled := [Run(arena, 1)], map[], {arena}, 0, {};
      new;
      assert Linked(runs, 0, units, next) && In(runs[0], arena);
    }

    /** Put `len` units at `block` into the list, merging them with the free neighbours they touch. */
    method SlobFree(block: nat, size: nat, ghost len: nat) returns (ghost p: nat)
      requires Ring() && len > 0 && Clear(runs, Run(block, len))
      requires if size > 0 then len == SlobUnits(size) else block in units && units[block] == len
      requires block + len != arena && block != arena + 1
      modifies this`units, this`next, this`slobfree, this`runs
      ensures Ring() && Fits(old(runs), p, Run(block, len)) && runs == Inserted(old(runs), p, Run(block, len))
      ensures old(runs) != [] && slobfree == old(runs)[Before(old(runs), p)].start
      ensures slobfree == old(runs)[if p == 0 then |old(runs)| - 1 else p - 1].start
      ensures forall u :: Free(runs, u) <==> Free(old(runs), u) || In(Run(block, len), u)
      ensures forall a :: a in old(units) && a != block && !Free(old(runs), a) ==>
        a in units && units[a] == old(units[a])
    {
      hide IsRing, Separated, Around, Before, Succ, Steps, Inserted, Free, Clear, Fits, OnRing, UnitsAfter, NextAfter;
      var b: nat := block;
      ghost var r := Run(b, len);
      HeaderWrite(runs, units, next, slobfree, arena, r);
      assert size == 0 ==> units[b := len] == units;
      if size > 0 {
        units := units[b := SlobUnits(size)];
      }
      ghost var c: nat;
      p, c := Search(runs, units, next, slobfree, arena, r);
      var cur: nat := slobfree;
      while !(b > cur && b < next[cur])
        invariant c < |runs| && cur == runs[c].start && cur in next && next[cur] == Around(runs, c)
        modifies {}
        decreases Steps(runs, c, Before(runs, p))
      {
        StopsAt(runs, p, r, c);
        if cur >= next[cur] && (b > cur || b < next[cur]) {
          break;
        }
        cur := next[cur];
        StepsFall(runs, c, Before(runs, p));
        c := Succ(runs, c);
        RingAt(runs, units, next, slobfree, arena, c);
      }
      StopsAt(runs, p, r, c);
      FreeDone(runs, units, next, slobfree, arena, p, r);
      BeforeIs(runs, p);
      LinkAndMerge(b, cur);
      slobfree := cur;
      runs := Inserted(runs, p, r);
    }

    /** The second half of slob_free: link block b in behind `cur` and merge it with the neighbours it touches. */
    method LinkAndMerge(b: nat, cur: nat)
      requires cur in next && next[cur] in units && next[cur] in next && b in units && cur in units
      modifies this`units, this`next
      ensures units == UnitsAfter(old(units), old(next), cur, b)
      ensures next == NextAfter(old(units), old(next), cur, b)
    {
      if b + units[b] == next[cur] {
        units := units[b := units[b] + units[next[cur]]];
        next := next[b := next[next[cur]]];
      } else {
        next := next[b := next[cur]];
      }
      if cur + units[cur] == b {
        units := units[cur := units[cur] + units[b]];
        next := next[cur := next[b]];
      } else {
        next := next[cur := b];
      }
    }

    /** The room found in block `cur` is taken: the head skipped for alignment stays, the rest goes back. */
    method Take(prev0: nat, cur0: nat, delta: nat, need: nat, ghost k: nat) returns (r: nat)
      requires Ring() && k < |runs| && cur0 == runs[k].start && prev0 == runs[Before(runs, k)].start
      requires need > 1 && delta + need <= runs[k].len
      modifies this`units, this`next, this`slobfree, this`runs
      ensures Ring() && r == cur0 + delta && r in units && units[r] == need
      ensures runs == Carved(old(runs), k, delta, need) && slobfree == if delta > 0 then cur0 else prev0
      ensures forall u :: Free(runs, u) <==> Free(old(runs), u) && !In(Run(r, need), u)
      ensures forall u :: In(Run(r, need), u) ==> Free(old(runs), u)
      ensures forall a :: a in old(units) && !Free(old(runs), a) ==> a in units && units[a] == old(units[a])
    {
      hide IsRing, Carved, SkipUnits, SkipNext, TakeUnits, TakeNext, Free, Before;
      var prev, cur := prev0, cur0;
      ghost var u, n, prev1, cur1 := TakeDone(runs, units, next, slobfree, arena, k, delta, need);
      TakeFree(runs, k, delta, need);
      TakeHeaders(runs[k], units, delta, need);
      SkipHead(cur, delta);
      if delta > 0 {
        prev := cur;
        cur := cur + delta;
      }
      TakeFront(prev, cur, need);
      slobfree := prev;
      runs := Carved(runs, k, delta, need);
      return cur;
    }

    /** `if (delta)`: cut the head off, as a block of its own. */
    method SkipHead(cur: nat, delta: nat)
      requires cur in units && cur in next
      modifies this`units, this`next
      ensures units == SkipUnits(old(units), cur, delta) && next == SkipNext(old(next), cur, delta)
    {
      if delta > 0 {
        var aligned := cur + delta;
        units := units[aligned := units[cur] - delta];
        next := next[aligned := next[cur]];
        next := next[cur := aligned];
        units := units[cur := delta];
      }
    }

    /** Exact fit: unlink; otherwise: put the rest in the place of the block. */
    method TakeFront(prev: nat, cur: nat, need: nat)
      requires cur in units && cur in next && prev != cur && prev in next
      modifies this`units, this`next
      ensures units == TakeUnits(old(units), cur, need) && next == TakeNext(old(units), old(next), prev, cur, need)
    {
      if units[cur] == need {
        next := next[prev := next[cur]];
      } else {
        next := next[prev := cur + need];
        units := units[cur + need := units[cur] - need];
        next := next[cur + need := next[cur]];
        units := units[cur := need];
      }
    }

    /** Take the room found and book it as allocated. */
    method Claim(prev: nat, cur: nat, delta: nat, need: nat, ghost k: nat) returns (r: nat)
      requires Valid() && k < |runs| && cur == runs[k].start && prev == runs[Before(runs, k)].start
      requires need > 1 && delta + need <= runs[k].len
      modifies this`units, this`next, this`slobfree, this`runs, this`live
      ensures Valid() && r == cur + delta && r !in old(live) && live == old(live)[r := need]
      ensures Took(old(runs), k, r, need, runs, slobfree)
      ensures forall u :: Free(runs, u) <==> Free(old(runs), u) && !In(Run(r, need), u)
      ensures forall u :: In(Run(r, need), u) ==> Free(old(runs), u)
    {
      hide IsRing, IsHeap, Free, Before, Carved;
      r := Take(prev, cur, delta, need, k);
      AllocHeap(old(runs), old(units), arena, live, owned, pages, scribbled, runs, units, r, need);
      live := live[r := need];
    }

    /** A page from the page allocator joins the list; block f, which it becomes part of, has room for any request. */
    method Grow(page: nat, ghost need: nat, ghost align: nat) returns (ghost s: nat, ghost f: nat)
      requires Valid() && PageOk(page, owned, arena) && need <= PAGE_UNITS && Alignment(align)
      modifies this`units, this`next, this`slobfree, this`runs, this`owned, this`pages
      ensures Valid() && owned == old(owned) + PageSet(page, PAGE_UNITS) && pages == old(pages) + 1
      ensures forall u :: Free(runs, u) <==> Free(old(runs), u) || In(Run(page, PAGE_UNITS), u)
      ensures s < |runs| && runs[s].start == slobfree
      ensures f < |runs| && Room(runs[f], need, align) && PageAdded(old(runs), page, runs, slobfree)
    {
      hide IsRing, IsHeap, Free, PageSet, PageOk, Alignment, Room, Inserted, Fits, Before;
      PageClear(runs, units, arena, live, owned, pages, scribbled, page);
      ghost var p := SlobFree(page, PAGE_SIZE, PAGE_UNITS);
      GrowHeap(old(runs), old(units), arena, live, owned, pages, scribbled, runs, units, page);
      owned, pages := owned + PageSet(page, PAGE_UNITS), pages + 1;
      s := RingStart(runs, units, next, slobfree, arena);
      f := PageRoom(runs, page, need, align);
    }

    /**
     Allocate `size` bytes at an address that is a multiple of `align` units.  `reply` is what the page
     allocator answers if it is asked, and `asks` tells how often it is.  Block k of `list` is the first one behind
     `rover` with room; these are the list and the roving pointer at first, or once the page is in.
     */
    method SlobAlloc(size: nat, align: nat, reply: Option<nat>)
      returns (r: Option<nat>, ghost asks: nat, ghost list: seq<Run>, ghost rover: nat, ghost k: nat)
      requires Valid() && size + SLOB_UNIT < PAGE_SIZE && SlobUnits(size) > 1 && Alignment(align)
      requires reply.Some? ==> PageOk(reply.value, owned, arena)
      modifies this`units, this`next, this`slobfree, this`runs, this`live, this`owned, this`pages
      ensures Valid()
      ensures asks <= 1 && (asks == 0 <==> HasRoom(old(runs), SlobUnits(size), align))
      ensures r.None? <==> asks == 1 && reply.None?
      ensures r.None? ==> runs == old(runs) && live == old(live)
      ensures asks == 0 ==> list == old(runs) && rover == old(slobfree)
      ensures asks == 1 && reply.Some? ==> PageAdded(old(runs), reply.value, list, rover)
      ensures r.Some? ==> FirstWithRoom(list, rover, SlobUnits(size), align, k)
      ensures r.Some? ==> r.value == AlignUp(list[k].start, align)
      ensures r.Some? ==> Took(list, k, r.value, SlobUnits(size), runs, slobfree)
      ensures r.Some? ==> r.value !in old(live) && live == old(live)[r.value := SlobUnits(size)]
      ensures r.Some? && align > 0 ==> r.value % align == 0
      ensures r.Some? && align == 0 ==>
        k < |list| && r.value == list[k].start && slobfree == list[if k == 0 then |list| - 1 else k - 1].start
      ensures r.Some? ==> forall u :: Free(runs, u) <==>
        Available(old(runs), reply, asks, u) && !In(Run(r.value, SlobUnits(size)), u)
      ensures r.Some? ==> forall u :: In(Run(r.value, SlobUnits(size)), u) ==> Available(old(runs), reply, asks, u)
      ensures owned == Grown(old(owned), reply, asks) && pages == old(pages) + if reply.Some? then asks else 0
    {
      hide IsRing, IsHeap, Free, Room, HasRoom, PageOk, Alignment, AlignUp, Before, Succ, Around, Steps, Searching,
        Available, PageSet, FirstWithRoom, Carved, Took, PageAdded, Separated, In;
      var need := SlobUnits(size);
      asks, list, rover := 0, runs, slobfree;
      var prev: nat := slobfree;
      ghost var s: nat := RingStart(runs, units, next, slobfree, arena);
      var cur: nat := next[prev];
      ghost var f: nat := 0;
      k := Succ(runs, s);
      SearchStarts(runs, need, align, reply, s);
      while true
        invariant Valid() && live == old(live) && asks <= 1
        invariant k < |runs| && cur == runs[k].start && s < |runs| && slobfree == runs[s].start
        invariant prev == runs[Before(runs, k)].start
        invariant owned == Grown(old(owned), reply, asks) && pages == old(pages) + if reply.Some? then asks else 0
        invariant Searching(old(runs), runs, need, align, reply, asks, k, s, f)
        invariant list == runs && rover == slobfree && (asks == 0 ==> slobfree == old(slobfree))
        invariant asks == 1 ==> reply.Some? && PageAdded(old(runs), reply.value, list, rover)
        decreases 1 - asks, Steps(runs, k, s)
      {
        RingAt(runs, units, next, slobfree, arena, k);
        RoomIs(runs, k, need, align);
        SearchIs(old(runs), runs, need, align, reply, asks, k, s, f);
        var delta: nat := AlignUp(cur, align) - cur;
        if units[cur] >= need + delta {
          FirstIs(old(runs), runs, slobfree, need, align, reply, asks, k, s, f);
          var a := Claim(prev, cur, delta, need, k);
          BeforeIs(list, k);
          TookIs(list, k, a, need, runs, slobfree, align);
          r := Some(a);
          return;
        }
        if cur == slobfree {
          asks := asks + 1;
          if reply == None {
            r := None;
            return;
          }
          s, f := Grow(reply.value, need, align);
          list, rover := runs, slobfree;
          cur := slobfree;
          k := s;
          SearchGrows(old(runs), runs, need, align, reply, k, s, f);
        } else {
          SearchSteps(old(runs), runs, need, align, reply, asks, k, s, f);
        }
        RingAt(runs, units, next, slobfree, arena, k);
        NextStep(runs, k, s);
        prev := cur;
        cur := next[cur];
        k := Succ(runs, k);
      }
    }

    // -------------------------------------------------------------- kmalloc and kfree

    /** The least shift that brings the size down to a page. */
    method FindOrder(size: int) returns (order: nat)
      ensures order == Order(size)
    {
      order := 0;
      var s := size;
      while s > 4096
        invariant Order(size) == order + Order(s)
        decreases if s > 0 then s else 0
      {
        s := s / 2;
        order := order + 1;
      }
    }

    /** kfree's slob_free of a block of slob_alloc, by its own header (`size` 0) or by the size its owner knows. */
    method Release(a: nat, size: nat)
      requires Valid() && a in live
      requires if size > 0 then live[a] == SlobUnits(size) else a !in scribbled
      modifies this`units, this`next, this`slobfree, this`runs, this`live, this`scribbled
      ensures Valid() && live == old(live) - {a} && scribbled == old(scribbled) - {a}
      ensures forall u :: Free(runs, u) <==> Free(old(runs), u) || In(Run(a, old(live)[a]), u)
    {
      hide IsRing, IsHeap, Free, Clear, Inserted, Fits, Before;
      LiveClear(runs, units, arena, live, owned, pages, scribbled, a);
      ghost var p := SlobFree(a, size, live[a]);
      FreeHeap(old(runs), old(units), arena, live, owned, pages, scribbled, runs, units, a);
      live, scribbled := live - {a}, scribbled - {a};
    }

    /** slob_alloc as kmalloc uses it: no alignment, and the big blocks stay what they are. */
    method Obtain(size: nat, reply: Option<nat>) returns (r: Option<nat>, ghost asks: nat)
      requires Whole() && size + SLOB_UNIT < PAGE_SIZE && SlobUnits(size) > 1
      requires reply.Some? ==> PageOk(reply.value, owned, arena)
      requires reply.Some? ==> ApartFromBig(Run(reply.value, PAGE_UNITS), bigblocks)
      modifies this`units, this`next, this`slobfree, this`runs, this`live, this`owned, this`pages
      ensures Whole()
      ensures asks <= 1 && (asks == 0 <==> HasRoom(old(runs), SlobUnits(size), 0))
      ensures r.None? <==> asks == 1 && reply.None?
      ensures r.None? ==> runs == old(runs) && live == old(live)
      ensures r.Some? ==> r.value !in old(live) && live == old(live)[r.value := SlobUnits(size)]
      ensures r.Some? ==> !NodeOf(bigblocks, r.value)
      ensures r.Some? ==> FirstFit(old(runs), old(slobfree), reply, asks, SlobUnits(size), r.value)
      ensures r.Some? ==> forall u :: Free(runs, u) <==>
        Available(old(runs), reply, asks, u) && !In(Run(r.value, SlobUnits(size)), u)
      ensures r.Some? ==> forall u :: In(Run(r.value, SlobUnits(size)), u) ==> Available(old(runs), reply, asks, u)
      ensures owned == Grown(old(owned), reply, asks) && pages == old(pages) + if reply.Some? then asks else 0
    {
      hide IsRing, IsHeap, IsBig, Free, Grown, PageOk, NodeOf, HasRoom, Available, PageAdded, Took;
      ghost var list, rover, k;
      r, asks, list, rover, k := SlobAlloc(size, 0, reply);
      GrownIs(old(owned), reply, asks);
      BigAfterObtain(bigblocks, old(live), old(owned), scribbled, r, SlobUnits(size), reply, asks);
    }

    /**
     Allocate `size` bytes: small requests from the heap, behind a header; large ones as pages of their own
     (`bigReply` is what the page allocator answers), recorded in a node from the heap.
     The ghost `taken` is what leaves the free list.
     */
    method Kmalloc(size: nat, reply: Option<nat>, bigReply: Option<nat>)
      returns (r: Outcome, ghost asks: nat, ghost taken: Run)
      requires Whole() && size > 0
      requires reply.Some? ==> PageOk(reply.value, owned, arena)
      requires reply.Some? ==> ApartFromBig(Run(reply.value, PAGE_UNITS), bigblocks)
      requires bigReply.Some? ==> PagesOk(bigReply.value, Order(ToInt(size)), owned, bigblocks, reply)
      modifies this
      ensures Whole() && asks <= 1
      ensures if r == Panic then asks == 0 else asks == 0 <==> HasRoom(old(runs), Wanted(size), 0)
      ensures r != Panic ==>
        (asks == 0 <==> LongEnough(old(runs), if size < 4064 then (size + 31) / 16 else 2))
      ensures r.Block? ==> taken.len == if size < 4064 then (size + 31) / 16 else 2
      ensures r == Panic <==> 4064 <= size < 4080
      ensures r == Null <==>
        r != Panic && ((asks == 1 && reply.None?) || (size >= PAGE_SIZE - SLOB_UNIT && bigReply.None?))
      ensures !r.Block? ==> taken.len == 0 && live == old(live) && bigblocks == old(bigblocks)
      ensures r.Block? ==> taken.start !in old(live) && live == old(live)[taken.start := taken.len]
      ensures r.Block? ==>
        taken.len == Wanted(size) && FirstFit(old(runs), old(slobfree), reply, asks, Wanted(size), taken.start)
      ensures r.Block? && size < PAGE_SIZE - SLOB_UNIT ==>
        && r.address == taken.start + 1 && SLOB_UNIT * (taken.len - 1) >= size
        && bigblocks == old(bigblocks) && !NodeOf(bigblocks, taken.start)
      ensures r.Block? && size >= PAGE_SIZE - SLOB_UNIT ==>
        && Some(r.address) == bigReply
        && bigblocks == [BigBlock(taken.start, Order(ToInt(size)), r.address)] + old(bigblocks)
        && (size <= PAGE_SIZE * Pow2(bigblocks[0].order) <==> Fitting(size))
      ensures forall u :: Free(runs, u) <==> Available(old(runs), reply, asks, u) && !In(taken, u)
      ensures forall u :: In(taken, u) ==> Available(old(runs), reply, asks, u)
      ensures owned == Grown(old(owned), reply, asks) && pages == old(pages) + if reply.Some? then asks else 0
    {
      hide IsRing, IsHeap, IsBig, Free, Grown, PageOk, NodeOf, HasRoom, Available, Order, ToInt, ApartFromBig, PagesOk,
        Fitting, FirstFit, LongEnough;
      asks, taken := 0, Run(0, 0);
      RoomIsLength(runs, Wanted(size));
      Unanswered(runs, owned, reply, 0);
      if size < PAGE_SIZE - SLOB_UNIT {
        if size + SLOB_UNIT + SLOB_UNIT >= PAGE_SIZE {
          return Panic, asks, taken;
        }
        var m;
        m, asks := Obtain(size + SLOB_UNIT, reply);
        if m == None {
          Unanswered(runs, owned, reply, asks);
          return Null, asks, taken;
        }
        taken := Run(m.value, SlobUnits(size + SLOB_UNIT));
        return Block(m.value + 1), asks, taken;
      }
      r, asks, taken := KmallocBig(size, reply, bigReply);
    }

    /** The second half of __kmalloc. */
    method KmallocBig(size: nat, reply: Option<nat>, bigReply: Option<nat>)
      returns (r: Outcome, ghost asks: nat, ghost taken: Run)
      requires Whole()
      requires reply.Some? ==> PageOk(reply.value, owned, arena)
      requires reply.Some? ==> ApartFromBig(Run(reply.value, PAGE_UNITS), bigblocks)
      requires bigReply.Some? ==> PagesOk(bigReply.value, Order(ToInt(size)), owned, bigblocks, reply)
      modifies this
      ensures Whole() && asks <= 1 && (asks == 0 <==> HasRoom(old(runs), SlobUnits(BIGBLOCK_SIZE), 0))
      ensures r != Panic && (r == Null <==> (asks == 1 && reply.None?) || bigReply.None?)
      ensures !r.Block? ==> taken.len == 0 && live == old(live) && bigblocks == old(bigblocks)
      ensures r.Block? ==> taken.start !in old(live) && live == old(live)[taken.start := taken.len]
      ensures r.Block? ==>
        && taken.len == SlobUnits(BIGBLOCK_SIZE)
        && FirstFit(old(runs), old(slobfree), reply, asks, SlobUnits(BIGBLOCK_SIZE), taken.start)
      ensures r.Block? ==>
        && Some(r.address) == bigReply
        && bigblocks == [BigBlock(taken.start, Order(ToInt(size)), r.address)] + old(bigblocks)
        && (size <= PAGE_SIZE * Pow2(bigblocks[0].order) <==> Fitting(size))
      ensures forall u :: Free(runs, u) <==> Available(old(runs), reply, asks, u) && !In(taken, u)
      ensures forall u :: In(taken, u) ==> Available(old(runs), reply, asks, u)
      ensures owned == Grown(old(owned), reply, asks) && pages == old(pages) + if reply.Some? then asks else 0
    {
      hide IsRing, IsHeap, IsBig, Free, Grown, PageOk, NodeOf, HasRoom, Available, Order, ToInt, ApartFromBig, PagesOk,
        Fitting, FirstFit;
      taken := Run(0, 0);
      BigHolds(size);
      var bb;
      bb, asks := Obtain(BIGBLOCK_SIZE, reply);
      if bb == None {
        Unanswered(runs, owned, reply, asks);
        return Null, asks, taken;
      }
      var order := FindOrder(ToInt(size));
      if bigReply.Some? {
        RecordBig(bb.value, order, bigReply.value, reply, asks, old(owned));
        taken := Run(bb.value, SlobUnits(BIGBLOCK_SIZE));
        return Block(bigReply.value), asks, taken;
      }
      GiveBack(bb.value);
      r := Null;
    }

    method RecordBig(bb: nat, order: nat, pages: nat, ghost reply: Option<nat>, ghost asks: nat, ghost before: set<nat>)
      requires Whole() && bb in live && live[bb] == SlobUnits(BIGBLOCK_SIZE) && !NodeOf(bigblocks, bb)
      requires PagesOk(pages, order, before, bigblocks, reply) && owned == Grown(before, reply, asks)
      modifies this`units, this`next, this`bigblocks, this`scribbled
      ensures Whole() && bigblocks == [BigBlock(bb, order, pages)] + old(bigblocks)
    {
      hide IsRing, IsHeap, IsBig, Grown, NodeOf, PagesOk;
      Scribble(runs, units, next, slobfree, arena, live, owned, this.pages, scribbled, bb, order, pages);
      BigRecorded(bigblocks, live, before, scribbled, BigBlock(bb, order, pages), reply, asks);
      units, next := units[bb := order], next[bb := pages];
      bigblocks := [BigBlock(bb, order, pages)] + bigblocks;
      scribbled := scribbled + {bb};
    }

    /** Give a node that was not used back. */
    method GiveBack(bb: nat)
      requires Whole() && bb in live && live[bb] == SlobUnits(BIGBLOCK_SIZE) && !NodeOf(bigblocks, bb)
      modifies this`units, this`next, this`slobfree, this`runs, this`live, this`scribbled
      ensures Whole() && live == old(live) - {bb}
      ensures forall u :: Free(runs, u) <==> Free(old(runs), u) || In(Run(bb, SlobUnits(BIGBLOCK_SIZE)), u)
    {
      hide IsRing, IsHeap, IsBig, NodeOf, Free;
      BigUntouched(bigblocks, live, owned, scribbled, bb);
      Release(bb, BIGBLOCK_SIZE);
    }

    /**
     Free what kmalloc returned.  `freed` is the big block that went back to the page allocator, if it was one;
     the ghosts are its place in the list and what joins the free list.
     */
    method Kfree(block: nat) returns (freed: Option<BigBlock>, ghost i: nat, ghost given: Run)
      requires Whole()
      requires block == 0 || PagesOf(bigblocks, block) || (block - 1 in live && !NodeOf(bigblocks, block - 1))
      modifies this`units, this`next, this`slobfree, this`bigblocks, this`runs, this`live, this`scribbled
      ensures Whole()
      ensures block == 0 ==> freed.None? && given.len == 0 && live == old(live)
      ensures block > 0 ==> given.start in old(live) && given.len == old(live)[given.start]
      ensures block > 0 ==> live == old(live) - {given.start}
      ensures freed.Some? <==> PagesOf(old(bigblocks), block)
      ensures freed.None? ==> bigblocks == old(bigblocks) && (block > 0 ==> given.start == block - 1)
      ensures freed.Some? ==> i < |old(bigblocks)| && freed.value == old(bigblocks)[i] && freed.value.pages == block
      ensures freed.Some? ==> given.start == freed.value.node
      ensures freed.Some? ==> bigblocks == old(bigblocks)[..i] + old(bigblocks)[i + 1..]
      ensures forall u :: Free(runs, u) <==> Free(old(runs), u) || In(given, u)
    {
      hide IsRing, IsHeap, IsBig, NodeOf, Free;
      freed, i, given := None, 0, Run(0, 0);
      NoZeroPages(bigblocks, live, owned, scribbled);
      if block == 0 {
        return;
      }
      if block % PAGE_UNITS == 0 {
        var k := 0;
        while k < |bigblocks|
          invariant k <= |bigblocks| && forall j :: 0 <= j < k ==> bigblocks[j].pages != block
          invariant Whole() && live == old(live) && bigblocks == old(bigblocks) && runs == old(runs)
          invariant scribbled == old(scribbled)
        {
          var bb := bigblocks[k];
          if bb.pages == block {
            PagesDiffer(bigblocks, live, owned, scribbled, k, k);
            BigRemoved(bigblocks, live, owned, scribbled, k);
            freed, i, given := Some(bb), k, Run(bb.node, SlobUnits(BIGBLOCK_SIZE));
            bigblocks := bigblocks[..k] + bigblocks[k + 1..];
            Release(bb.node, BIGBLOCK_SIZE);
            return;
          }
          k := k + 1;
        }
      }
      AlignedPages(bigblocks, live, owned, scribbled, block);
      given := Run(block - 1, live[block - 1]);
      HeaderStands(bigblocks, live, owned, scribbled, block - 1);
      BigUntouched(bigblocks, live, owned, scribbled, block - 1);
      Release(block - 1, 0);
    }

    /** What kmalloc returned, kfree puts back: the heap is as it was, plus the page if one was fetched. */
    method KmallocThenKfree(size: nat, reply: Option<nat>, bigReply: Option<nat>) returns (r: Outcome, ghost asks: nat)
      requires Whole() && size > 0
      requires reply.Some? ==> PageOk(reply.value, owned, arena)
      requires reply.Some? ==> ApartFromBig(Run(reply.value, PAGE_UNITS), bigblocks)
      requires bigReply.Some? ==> PagesOk(bigReply.value, Order(ToInt(size)), owned, bigblocks, reply)
      modifies this
      ensures Whole() && live == old(live) && bigblocks == old(bigblocks)
      ensures forall u :: Free(runs, u) <==> Available(old(runs), reply, asks, u)
      ensures asks == 0 ==> runs == old(runs)
      ensures asks <= 1 && if r == Panic then asks == 0 else asks == 0 <==> HasRoom(old(runs), Wanted(size), 0)
    {
      hide FirstFit, HasRoom, Wanted, IsRing, IsHeap, IsBig, PageOk, NodeOf, PagesOf, Free, Available, Order, ToInt,
        ApartFromBig, PagesOk, Grown;
      ghost var taken;
      r, asks, taken := Kmalloc(size, reply, bigReply);
      if r.Block? {
        ghost var bigs, more, had, lost := bigblocks, live, owned, scribbled;
        Answered(runs, units, arena, live, owned, pages, scribbled, bigs, old(bigblocks), taken.start, r.address);
        ghost var i, given;
        var freed;
        freed, i, given := Kfree(r.address);
        if freed.Some? {
          PagesDiffer(bigs, more, had, lost, i, 0);
        }
        assert given == taken && more - {taken.start} == old(live);
      }
      RingSeparated(old(runs), old(units), old(next), old(slobfree), arena);
      RingSeparated(runs, units, next, slobfree, arena);
      Restored(old(runs), runs, reply, asks);
    }
  }

  ghost predicate IsRing(runs: seq<Run>, units: map<nat, int>, next: map<nat, nat>, slobfree: nat, arena: nat) {
    && Separated(runs) && Links(runs, units, next)
    && OnRing(runs, slobfree) && Run(arena, 1) in runs
  }

  // ---------------------------------------------------------------- taking units out of a block

  lemma CarvedShape(runs: seq<Run>, k: nat, skip: nat, take: nat)
    requires k < |runs| && skip < runs[k].len && skip + take <= runs[k].len
    ensures Carved(runs, k, skip, take) == runs[..k]
      + (if skip > 0 then [Run(runs[k].start, skip)] else [])
      + (if skip + take < runs[k].len then [Run(runs[k].start + skip + take, runs[k].len - skip - take)] else [])
      + runs[k + 1..]
  {
  }

  lemma CarvedKeeps(runs: seq<Run>, k: nat, skip: nat, take: nat, i: nat)
    requires k < |runs| && skip < runs[k].len && skip + take <= runs[k].len && i < |runs| && i != k
    ensures runs[i] in Carved(runs, k, skip, take)
  {
    CarvedShape(runs, k, skip, take);
    assert runs[i] in if i < k then runs[..k] else runs[k + 1..];
  }

  /** What slob_alloc makes of the memory when it cuts the head of the block off. */
  ghost function SkipUnits(units: map<nat, int>, cur: nat, delta: nat): map<nat, int>
    requires cur in units
  {
    if delta > 0 then units[cur + delta := units[cur] - delta][cur := delta] else units
  }

  ghost function SkipNext(next: map<nat, nat>, cur: nat, delta: nat): map<nat, nat>
    requires cur in next
  {
    if delta > 0 then next[cur + delta := next[cur]][cur := cur + delta] else next
  }

  /** What it makes of the memory when it takes the front of block `cur`, the successor of `prev`. */
  ghost function TakeUnits(units: map<nat, int>, cur: nat, need: nat): map<nat, int>
    requires cur in units
  {
    if units[cur] == need then units else units[cur + need := units[cur] - need][cur := need]
  }

  ghost function TakeNext(units: map<nat, int>, next: map<nat, nat>, prev: nat, cur: nat, need: nat): map<nat, nat>
    requires cur in units && cur in next
  {
    if units[cur] == need then next[prev := next[cur]] else next[prev := cur + need][cur + need := next[cur]]
  }

  lemma SkipLinks(runs: seq<Run>, k: nat, delta: nat, units: map<nat, int>, next: map<nat, nat>)
    requires Links(runs, units, next) && Sorted(runs) && k < |runs| && delta < runs[k].len
    ensures var cur := runs[k].start;
      && cur in units && cur in next
      && Links(Skipped(runs, k, delta), SkipUnits(units, cur, delta), SkipNext(next, cur, delta))
  {
    hide Links, Sorted;
    LinkAt(runs, k, units, next);
    if delta > 0 {
      CutLinks(runs, k, delta, units, next);
    }
  }

  lemma ShrinkLinks(runs: seq<Run>, q: nat, need: nat, units: map<nat, int>, next: map<nat, nat>)
    requires Links(runs, units, next) && Sorted(runs) && q < |runs| && |runs| > 1 && 0 < need <= runs[q].len
    ensures var prev, cur := runs[Before(runs, q)].start, runs[q].start;
      && cur in units && cur in next
      && Links(Shrunk(runs, q, need), TakeUnits(units, cur, need), TakeNext(units, next, prev, cur, need))
  {
    hide Links, Sorted, Cut, Without;
    var prev, cur := runs[Before(runs, q)].start, runs[q].start;
    LinkAt(runs, q, units, next);
    if need == runs[q].len {
      WithoutLinks(runs, q, units, next);
    } else {
      var parts := Cut(runs, q, need);
      var u, n := units[cur + need := units[cur] - need][cur := need], next[cur + need := next[cur]][cur := cur + need];
      CutLinks(runs, q, need, units, next);
      CutSorted(runs, q, need);
      CutParts(runs, q, need);
      WithoutLinks(parts, q, u, n);
      WithoutStart(parts, q);
      ForgetLink(Without(parts, q), u, n[prev := n[cur]], TakeNext(units, next, prev, cur, need), cur);
    }
  }

  lemma CutParts(runs: seq<Run>, q: nat, n: nat)
    requires Sorted(runs) && q < |runs| && |runs| > 1 && 0 < n < runs[q].len
    ensures var parts := Cut(runs, q, n);
      && |parts| == |runs| + 1 && parts[q].start == runs[q].start
      && parts[Before(parts, q)].start == runs[Before(runs, q)].start
      && runs[Before(runs, q)].start != runs[q].start && runs[Before(runs, q)].start != runs[q].start + n
  {
  }

  lemma WithoutStart(runs: seq<Run>, q: nat)
    requires Sorted(runs) && q < |runs|
    ensures forall i :: 0 <= i < |Without(runs, q)| ==> Without(runs, q)[i].start != runs[q].start
  {
  }

  /** The link of a block that is not in the list does not matter. */
  lemma ForgetLink(runs: seq<Run>, units: map<nat, int>, next: map<nat, nat>, other: map<nat, nat>, cur: nat)
    requires Links(runs, units, next) && forall i :: 0 <= i < |runs| ==> runs[i].start != cur
    requires forall a :: a != cur && a in next ==> a in other && other[a] == next[a]
    ensures Links(runs, units, other)
  {
    forall i | 0 <= i < |runs|
      ensures Linked(runs, i, units, other)
    {
      assert Linked(runs, i, units, next);
    }
  }

  /** Everything slob_alloc promises about the list, once it has found room `delta` units into block k. */
  lemma TakeDone(runs: seq<Run>, units: map<nat, int>, next: map<nat, nat>, slobfree: nat, arena: nat, k: nat,
      delta: nat, need: nat)
    returns (u: map<nat, int>, n: map<nat, nat>, prev: nat, cur: nat)
    requires IsRing(runs, units, next, slobfree, arena) && k < |runs| && need > 1 && delta + need <= runs[k].len
    ensures |runs| > 1 && runs[k].start in units && runs[k].start in next && units[runs[k].start] == runs[k].len
    ensures Separated(runs) && prev != cur && prev in n
    ensures u == SkipUnits(units, runs[k].start, delta) && n == SkipNext(next, runs[k].start, delta)
    ensures prev == if delta > 0 then runs[k].start else runs[Before(runs, k)].start
    ensures cur == runs[k].start + delta && cur in u && cur in n && u[cur] == runs[k].len - delta
    ensures IsRing(Carved(runs, k, delta, need), TakeUnits(u, cur, need), TakeNext(u, n, prev, cur, need), prev, arena)
  {
    hide Links, Skipped, Shrunk;
    var a := ArenaElsewhere(runs, arena, k);
    LinkAt(runs, k, units, next);
    u, n := SkipUnits(units, runs[k].start, delta), SkipNext(next, runs[k].start, delta);
    prev, cur := if delta > 0 then runs[k].start else runs[Before(runs, k)].start, runs[k].start + delta;
    var s, q := Skipped(runs, k, delta), if delta > 0 then k + 1 else k;
    SkipLinks(runs, k, delta, units, next);
    SkippedParts(runs, k, delta);
    LinkAt(s, q, u, n);
    ShrinkLinks(s, q, need, u, n);
    CarvedSeparated(runs, k, delta, need);
    CarvedKeeps(runs, k, delta, need, a);
    PrevStays(runs, k, delta, need);
    LinkAt(runs, Before(runs, k), units, next);
    StartsDiffer(runs, k, Before(runs, k));
  }

  /** What taking units out of block k does to the free units. */
  lemma TakeFree(runs: seq<Run>, k: nat, delta: nat, need: nat)
    requires Separated(runs) && k < |runs| && need > 0 && delta + need <= runs[k].len
    ensures forall x :: Free(Carved(runs, k, delta, need), x) <==>
      Free(runs, x) && !In(Run(runs[k].start + delta, need), x)
    ensures forall x :: In(runs[k], x) ==> Free(runs, x)
    ensures forall x :: In(Run(runs[k].start + delta, need), x) ==> Free(runs, x)
  {
    forall x
      ensures Free(Carved(runs, k, delta, need), x) <==> Free(runs, x) && !In(Run(runs[k].start + delta, need), x)
    {
      CarvedFree(runs, k, delta, need, x);
    }
    forall x | In(Run(runs[k].start + delta, need), x)
      ensures Free(runs, x)
    {
      assert In(runs[k], x);
    }
  }

  /** Only headers inside the block are written. */
  lemma TakeHeaders(r: Run, units: map<nat, int>, delta: nat, need: nat)
    requires r.start in units && units[r.start] == r.len && delta + need <= r.len && need > 0
    ensures var u := SkipUnits(units, r.start, delta);
      && r.start + delta in u && u[r.start + delta] == r.len - delta
      && var w := TakeUnits(u, r.start + delta, need);
         && r.start + delta in w && w[r.start + delta] == need
         && forall a :: a in units && !In(r, a) ==> a in w && w[a] == units[a]
  {
  }

  lemma ArenaElsewhere(runs: seq<Run>, arena: nat, k: nat) returns (a: nat)
    requires Run(arena, 1) in runs && k < |runs| && runs[k].len > 1
    ensures a < |runs| && a != k && runs[a] == Run(arena, 1) && |runs| > 1
  {
    a :| 0 <= a < |runs| && runs[a] == Run(arena, 1);
  }

  lemma SkippedParts(runs: seq<Run>, k: nat, delta: nat)
    requires Separated(runs) && k < |runs| && |runs| > 1 && delta < runs[k].len
    ensures var s, q := Skipped(runs, k, delta), if delta > 0 then k + 1 else k;
      && Sorted(runs) && Sorted(s) && |s| > 1 && q < |s| && s[q] == Run(runs[k].start + delta, runs[k].len - delta)
      && s[Before(s, q)].start == if delta > 0 then runs[k].start else runs[Before(runs, k)].start
  {
    if delta > 0 {
      CutSorted(runs, k, delta);
    }
  }

  lemma PrevStays(runs: seq<Run>, k: nat, delta: nat, need: nat)
    requires k < |runs| && |runs| > 1 && need > 0 && delta + need <= runs[k].len
    ensures OnRing(Carved(runs, k, delta, need), if delta > 0 then runs[k].start else runs[Before(runs, k)].start)
  {
    var after := Carved(runs, k, delta, need);
    if delta > 0 {
      CarvedShape(runs, k, delta, need);
      assert after[k].start == runs[k].start;
    } else {
      CarvedKeeps(runs, k, delta, need, Before(runs, k));
      var i :| 0 <= i < |after| && after[i] == runs[Before(runs, k)];
    }
  }

  /** The places where the search of slob_free starts and where it is bound for. */
  lemma Search(runs: seq<Run>, units: map<nat, int>, next: map<nat, nat>, slobfree: nat, arena: nat, b: Run)
    returns (p: nat, c: nat)
    requires IsRing(runs, units, next, slobfree, arena) && b.len > 0 && Clear(runs, b)
    ensures Separated(runs) && Fits(runs, p, b) && p <= |runs|
    ensures Before(runs, p) < |runs|
    ensures c < |runs| && runs[c].start == slobfree && slobfree in next && next[slobfree] == Around(runs, c)
  {
    p := Place(runs, b);
    c := IndexOf(runs, slobfree);
    LinkAt(runs, c, units, next);
  }

  /** The roving pointer's index; the search begins behind it, with every block ahead. */
  lemma RingStart(runs: seq<Run>, units: map<nat, int>, next: map<nat, nat>, slobfree: nat, arena: nat) returns (s: nat)
    requires IsRing(runs, units, next, slobfree, arena)
    ensures s < |runs| && runs[s].start == slobfree && Separated(runs)
    ensures slobfree in next && next[slobfree] == Around(runs, s)
    ensures Succ(runs, s) < |runs| && runs[Succ(runs, s)].start == Around(runs, s) && Before(runs, Succ(runs, s)) == s
  {
    s := IndexOf(runs, slobfree);
    LinkAt(runs, s, units, next);
    NextStep(runs, s, s);
  }

  lemma RingAt(runs: seq<Run>, units: map<nat, int>, next: map<nat, nat>, slobfree: nat, arena: nat, c: nat)
    requires IsRing(runs, units, next, slobfree, arena) && c < |runs|
    ensures runs[c].start in units && units[runs[c].start] == runs[c].len
    ensures runs[c].start in next && next[runs[c].start] == Around(runs, c)
    ensures Separated(runs)
  {
    LinkAt(runs, c, units, next);
  }

  /** Everything slob_free promises, once it has found the place. */
  lemma FreeDone(runs: seq<Run>, units: map<nat, int>, next: map<nat, nat>, slobfree: nat, arena: nat, p: nat, b: Run)
    requires IsRing(runs, units, next, slobfree, arena) && |runs| > 0 && Fits(runs, p, b)
    requires b.start in units && units[b.start] == b.len && End(b) != arena && b.start != arena + 1
    ensures var cur := runs[Before(runs, p)].start;
      && cur in next && next[cur] in units && next[cur] in next && cur in units
      && IsRing(Inserted(runs, p, b), UnitsAfter(units, next, cur, b.start), NextAfter(units, next, cur, b.start),
                cur, arena)
      && (forall a :: a in units && a != b.start && !Free(runs, a) ==>
            a in UnitsAfter(units, next, cur, b.start) && UnitsAfter(units, next, cur, b.start)[a] == units[a])
    ensures forall u :: Free(Inserted(runs, p, b), u) <==> Free(runs, u) || In(b, u)
  {
    hide Links, Inserted;
    var c := Before(runs, p);
    InsertKeeps(runs, p, b, arena, runs[c].start);
    InsertLinks(runs, p, b, units, next);
    InsertedSeparated(runs, p, b);
    LinkAt(runs, c, units, next);
    forall u
      ensures Free(Inserted(runs, p, b), u) <==> Free(runs, u) || In(b, u)
    {
      InsertedFree(runs, p, b, u);
    }
  }

  lemma IndexOf(runs: seq<Run>, a: nat) returns (i: nat)
    requires OnRing(runs, a)
    ensures i < |runs| && runs[i].start == a
  {
    i :| 0 <= i < |runs| && runs[i].start == a;
  }

  lemma LinkAt(runs: seq<Run>, c: nat, units: map<nat, int>, next: map<nat, nat>)
    requires Links(runs, units, next) && c < |runs|
    ensures runs[c].start in units && units[runs[c].start] == runs[c].len
    ensures runs[c].start in next && next[runs[c].start] == Around(runs, c)
    ensures Free(runs, runs[c].start) || runs[c].len == 0
  {
    assert Linked(runs, c, units, next);
    assert runs[c].len > 0 ==> In(runs[c], runs[c].start);
  }

  /** What the merging half of slob_free makes of the memory. */
  ghost function UnitsAfter(units: map<nat, int>, next: map<nat, nat>, cur: nat, b: nat): map<nat, int>
    requires cur in next && next[cur] in units && b in units && cur in units
  {
    var u := if b + units[b] == next[cur] then units[b := units[b] + units[next[cur]]] else units;
    if cur + u[cur] == b then u[cur := u[cur] + u[b]] else u
  }

  ghost function NextAfter(units: map<nat, int>, next: map<nat, nat>, cur: nat, b: nat): map<nat, nat>
    requires cur in next && next[cur] in units && next[cur] in next && b in units && cur in units
  {
    var u := if b + units[b] == next[cur] then units[b := units[b] + units[next[cur]]] else units;
    var n := if b + units[b] == next[cur] then next[b := next[next[cur]]] else next[b := next[cur]];
    if cur + u[cur] == b then n[cur := n[b]] else n[cur := b]
  }

  lemma InsertTouches(runs: seq<Run>, p: nat, b: Run)
    requires Separated(runs) && |runs| > 0 && Fits(runs, p, b)
    ensures var c := Before(runs, p);
      && (End(b) == Around(runs, c) <==> TouchesAbove(runs, p, b))
      && (End(runs[c]) == b.start <==> TouchesBelow(runs, p, b))
  {
  }

  lemma InsertLinks(runs: seq<Run>, p: nat, b: Run, units: map<nat, int>, next: map<nat, nat>)
    requires Separated(runs) && Links(runs, units, next) && |runs| > 0 && Fits(runs, p, b)
    requires b.start in units && units[b.start] == b.len
    requires TouchesAbove(runs, p, b) ==> |runs| > 1
    ensures var cur := runs[Before(runs, p)].start;
      && cur in next && next[cur] in units && next[cur] in next && cur in units
      && Links(Inserted(runs, p, b), UnitsAfter(units, next, cur, b.start), NextAfter(units, next, cur, b.start))
  {
    hide Links, Separated, Sorted, Spliced, Joined, InsertedAbove, Around;
    var c := Before(runs, p);
    var cur, above := runs[c].start, InsertedAbove(runs, p, b);
    LinkAt(runs, c, units, next);
    LinkAt(runs, Succ(runs, c), units, next);
    InsertTouches(runs, p, b);
    SplicedSorted(runs, p, b);
    var u, n := InsertAboveLinks(runs, p, b, units, next);
    if TouchesBelow(runs, p, b) {
      JoinedLinks(above, p - 1, u, n);
      assert above[p - 1].start == cur && above[p].start == b.start;
      assert n[cur := n[b.start]] == NextAfter(units, next, cur, b.start);
    }
  }

  /** The first half: b is linked in and merged with the block above. */
  lemma InsertAboveLinks(runs: seq<Run>, p: nat, b: Run, units: map<nat, int>, next: map<nat, nat>)
    returns (u: map<nat, int>, n: map<nat, nat>)
    requires Separated(runs) && Links(runs, units, next) && |runs| > 0 && Fits(runs, p, b)
    requires b.start in units && units[b.start] == b.len
    requires TouchesAbove(runs, p, b) ==> |runs| > 1
    ensures var cur := runs[Before(runs, p)].start;
      && cur in next && next[cur] in units && next[cur] in next
      && u ==
        (if b.start + units[b.start] == next[cur] then units[b.start := units[b.start] + units[next[cur]]] else units)
      && n == (if b.start + units[b.start] == next[cur] then next[b.start := next[next[cur]]]
               else next[b.start := next[cur]])[cur := b.start]
      && Links(InsertedAbove(runs, p, b), u, n)
  {
    hide Links, Separated, Sorted, Joined, Spliced;
    var c := Before(runs, p);
    var cur, nxt := runs[c].start, Around(runs, c);
    LinkAt(runs, c, units, next);
    LinkAt(runs, Succ(runs, c), units, next);
    InsertTouches(runs, p, b);
    SplicedSorted(runs, p, b);
    SplicedLinks(runs, p, b, units, next);
    assert units[b.start := b.len] == units;
    u, n := units, next[b.start := nxt][cur := b.start];
    if TouchesAbove(runs, p, b) {
      SplicedAt(runs, p, b, p);
      SplicedHas(runs, p, b);
      JoinedLinks(Spliced(runs, p, b), p, u, n);
      u := units[b.start := units[b.start] + units[nxt]];
      assert n[b.start := n[nxt]] == next[b.start := next[nxt]][cur := b.start];
      n := next[b.start := next[nxt]][cur := b.start];
    }
  }

  lemma SplicedHas(runs: seq<Run>, p: nat, b: Run)
    requires p <= |runs|
    ensures |Spliced(runs, p, b)| == |runs| + 1 && Spliced(runs, p, b)[p] == b
  {
  }

  lemma SplicedSorted(runs: seq<Run>, p: nat, b: Run)
    requires Separated(runs) && Fits(runs, p, b)
    ensures Sorted(runs) && Sorted(Spliced(runs, p, b)) && Sorted(InsertedAbove(runs, p, b))
    ensures forall i :: 0 <= i < |runs| ==> runs[i].start != b.start
    ensures forall i, j :: 0 <= i < j < |runs| ==> runs[i].start != runs[j].start
  {
    hide InsertedAbove, Spliced;
    InsertedAboveSeparated(runs, p, b);
    SplicedIsSorted(runs, p, b);
  }

  /** Writing the header of a block outside the list does not disturb the list. */
  lemma HeaderWrite(runs: seq<Run>, units: map<nat, int>, next: map<nat, nat>, slobfree: nat, arena: nat, b: Run)
    requires IsRing(runs, units, next, slobfree, arena) && b.len > 0 && Clear(runs, b)
    ensures IsRing(runs, units[b.start := b.len], next, slobfree, arena)
  {
    var u := units[b.start := b.len];
    assert In(b, b.start) && !Free(runs, b.start);
    forall i | 0 <= i < |runs|
      ensures Linked(runs, i, u, next)
    {
      assert Linked(runs, i, units, next);
      assert In(runs[i], runs[i].start) && Free(runs, runs[i].start);
    }
  }

  /** The block before the place, and a block that b does not touch, stay on the ring. */
  lemma InsertKeeps(runs: seq<Run>, p: nat, b: Run, arena: nat, cur: nat)
    requires Separated(runs) && Fits(runs, p, b) && |runs| > 0 && cur == runs[Before(runs, p)].start
    requires Run(arena, 1) in runs && End(b) != arena && b.start != arena + 1
    ensures OnRing(Inserted(runs, p, b), cur) && Run(arena, 1) in Inserted(runs, p, b)
    ensures TouchesAbove(runs, p, b) ==> |runs| > 1
  {
    hide Inserted, InsertedAbove, Spliced, Joined;
    var c := Before(runs, p);
    var a :| 0 <= a < |runs| && runs[a] == Run(arena, 1);
    InsertedIndex(runs, p, b, a);
    if p > 0 {
      BelowStays(runs, p, b);
    } else {
      InsertedIndex(runs, p, b, c);
    }
  }

  lemma BelowStays(runs: seq<Run>, p: nat, b: Run)
    requires 0 < p <= |runs| && Separated(runs) && Fits(runs, p, b)
    ensures p - 1 < |Inserted(runs, p, b)| && Inserted(runs, p, b)[p - 1].start == runs[p - 1].start
  {
    hide Separated, Fits;
    assert Spliced(runs, p, b)[p - 1] == runs[p - 1];
    assert InsertedAbove(runs, p, b)[p - 1] == runs[p - 1];
  }

  /** Where an untouched block ends up. */
  lemma InsertedIndex(runs: seq<Run>, p: nat, b: Run, i: nat)
    requires Separated(runs) && Fits(runs, p, b) && i < |runs|
    requires !(TouchesBelow(runs, p, b) && i == p - 1) && !(TouchesAbove(runs, p, b) && i == p)
    ensures runs[i] in Inserted(runs, p, b)
  {
    hide Inserted, InsertedAbove, Spliced, Joined;
    var lo, hi := TouchesBelow(runs, p, b), TouchesAbove(runs, p, b);
    var s, t := Spliced(runs, p, b), InsertedAbove(runs, p, b);
    SplicedAt(runs, p, b, i);
    var j := if i < p then i else i + 1;
    if hi {
      JoinedAt(s, p, j);
    }
    var k := if hi && j > p then j - 1 else j;
    InsertedSteps(runs, p, b);
    assert t[k] == runs[i];
    if lo {
      JoinedAt(t, p - 1, k);
    }
  }

  lemma SplicedAt(runs: seq<Run>, p: nat, b: Run, i: nat)
    requires p <= |runs| && i < |runs|
    ensures |Spliced(runs, p, b)| == |runs| + 1 && Spliced(runs, p, b)[if i < p then i else i + 1] == runs[i]
  {
  }

  lemma JoinedAt(runs: seq<Run>, q: nat, i: nat)
    requires q + 1 < |runs| && i < |runs| && i != q && i != q + 1
    ensures |Joined(runs, q)| == |runs| - 1 && Joined(runs, q)[if i < q then i else i - 1] == runs[i]
  {
  }

  // ---------------------------------------------------------------- conservation

  ghost function LiveTotal(live: map<nat, nat>): nat {
    if live == map[] then 0 else
      var a :| a in live;
      live[a] + LiveTotal(live - {a})
  }

  lemma {:induction false} FreeSet(runs: seq<Run>) returns (s: set<nat>)
    requires Separated(runs)
    ensures |s| == Total(runs) && forall u :: u in s <==> Free(runs, u)
  {
    if runs == [] {
      s := {};
    } else {
      var rest := FreeSet(runs[1..]);
      var first := PageSet(runs[0].start, runs[0].len);
      PageSetIs(runs[0].start, runs[0].len);
      forall u: nat
        ensures u in first + rest <==> Free(runs, u)
        ensures !(u in first && u in rest)
      {
        FreeTail(runs, u);
        assert In(runs[0], u) ==> Free(runs, u);
      }
      assert first !! rest;
      s := first + rest;
    }
  }

  ghost predicate DisjointBlocks(live: map<nat, nat>) {
    forall a, c, u :: a in live && c in live && In(Run(a, live[a]), u) && In(Run(c, live[c]), u) ==> a == c
  }

  lemma {:induction false} LiveSet(live: map<nat, nat>) returns (s: set<nat>)
    requires DisjointBlocks(live)
    ensures |s| == LiveTotal(live) && forall u :: u in s <==> Live(live, u)
    decreases |live|
  {
    if live == map[] {
      s := {};
    } else {
      var a :| a in live && LiveTotal(live) == live[a] + LiveTotal(live - {a});
      var fewer := live - {a};
      assert |fewer.Keys| < |live.Keys| by {
        assert fewer.Keys == live.Keys - {a};
      }
      var rest := LiveSet(fewer);
      PageSetIs(a, live[a]);
      forall u: nat
        ensures u in PageSet(a, live[a]) + rest <==> Live(live, u)
        ensures !(u in PageSet(a, live[a]) && u in rest)
      {
        LiveSplit(live, a, u);
      }
      assert PageSet(a, live[a]) !! rest;
      s := PageSet(a, live[a]) + rest;
    }
  }

  lemma LiveSplit(live: map<nat, nat>, a: nat, u: nat)
    requires DisjointBlocks(live) && a in live
    ensures Live(live, u) <==> In(Run(a, live[a]), u) || Live(live - {a}, u)
    ensures !(In(Run(a, live[a]), u) && Live(live - {a}, u))
  {
    var fewer := live - {a};
    if Live(live, u) && !In(Run(a, live[a]), u) {
      var c :| c in live && In(Run(c, live[c]), u);
      assert c in fewer && In(Run(c, fewer[c]), u);
    }
    if Live(fewer, u) {
      var c :| c in fewer && In(Run(c, fewer[c]), u);
      assert c in live && In(Run(c, live[c]), u);
    }
  }

  /** In every valid state the free and the allocated units add up to arena and the pages obtained. */
  lemma UnitsConserved(runs: seq<Run>, units: map<nat, int>, arena: nat, live: map<nat, nat>, owned: set<nat>,
      pages: nat, scribbled: set<nat>)
    requires Separated(runs) && IsHeap(runs, units, arena, live, owned, pages, scribbled)
    ensures Total(runs) + LiveTotal(live) == 1 + PAGE_UNITS * pages
  {
    hide Free, Live, Separated;
    var f := FreeSet(runs);
    var l := LiveSet(live);
    assert f !! l && f + l == owned;
  }

  // ---------------------------------------------------------------- the limits of the request sizes

  /**
   A request of one unit, which only kmalloc(0) makes, fits every block: it takes arena exactly if arena comes next
   behind the roving pointer.  If arena is alone, unlinking it writes back what is there, and the same unit is handed
   out again and again; otherwise the circle goes on without arena.
   */
  lemma ZeroSizeTakesArena(runs: seq<Run>, units: map<nat, int>, next: map<nat, nat>, slobfree: nat, arena: nat, k: nat,
      size: nat)
    requires IsRing(runs, units, next, slobfree, arena) && k < |runs|
    ensures SlobUnits(size + SLOB_UNIT) == 1 <==> size == 0
    ensures slobfree in next && (FirstWithRoom(runs, slobfree, 1, 0, k) <==> runs[k].start == next[slobfree])
    ensures arena in next && arena in units && units[arena] == 1
    ensures |runs| == 1 ==>
      next[slobfree] == arena && TakeUnits(units, arena, 1) == units
      && TakeNext(units, next, slobfree, arena, 1) == next
    ensures |runs| > 1 && runs[k].start == arena ==>
      && Links(Without(runs, k), TakeUnits(units, arena, 1),
               TakeNext(units, next, runs[Before(runs, k)].start, arena, 1))
      && !OnRing(Without(runs, k), arena)
  {
    hide Links;
    var s := RingStart(runs, units, next, slobfree, arena);
    var a :| 0 <= a < |runs| && runs[a] == Run(arena, 1);
    LinkAt(runs, a, units, next);
    AnyHasRoom(runs);
    SuccessorIsFirst(runs, slobfree, s, k);
    if |runs| > 1 && runs[k].start == arena {
      StartsDiffer(runs, a, k);
      WithoutLinks(runs, k, units, next);
      WithoutStart(runs, k);
    }
  }

  lemma AnyHasRoom(runs: seq<Run>)
    requires Separated(runs)
    ensures forall i :: 0 <= i < |runs| ==> Room(runs[i], 1, 0)
  {
  }

  lemma SuccessorIsFirst(runs: seq<Run>, slobfree: nat, s: nat, k: nat)
    requires Separated(runs) && s < |runs| && runs[s].start == slobfree && k < |runs|
    requires forall i :: 0 <= i < |runs| ==> Room(runs[i], 1, 0)
    ensures FirstWithRoom(runs, slobfree, 1, 0, k) <==> runs[k].start == Around(runs, s)
  {
    hide Room;
    var c := Succ(runs, s);
    NextStep(runs, s, s);
    NextTodo(runs, 1, 0, s, s);
    StartsDiffer(runs, c, k);
    if k != c {
      forall t | 0 <= t < |runs| && runs[t].start == slobfree
        ensures !NoneSoFar(runs, 1, 0, k, t)
      {
        StartsDiffer(runs, s, t);
        assert !Todo(c, k, s) && Room(runs[c], 1, 0);
      }
    }
  }
}
