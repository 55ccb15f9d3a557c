/**
 The buddy page allocator of lab2/kern/mm/buddy_pmm.c.

 `base` holds the page descriptors, `freeList[o]` lists the head pages of the free blocks of
 order o, and pages are named by their index in `base`.
 */
module Buddy {
  import opened Words
  import opened BuddyTheory
  import opened BuddyLists

  function Order2Size(order: nat): nat {
    Pow2(order)
  }

  /** The least order whose blocks hold n pages, or the top order if there is none: ⌈log2 n⌉ for n up to 2^15. */
  ghost predicate IsCeilOrder(o: nat, n: nat) {
    && o <= MAX_ORDER
    && (n <= Pow2(MAX_ORDER) ==> n <= Pow2(o))
    && (n > Pow2(MAX_ORDER) ==> o == MAX_ORDER)
    && (o > 0 ==> Pow2(o - 1) < n)
  }

  method Size2OrderCeil(n: nat) returns (o: nat)
    ensures IsCeilOrder(o, n)
  {
    o := 0;
    var s := 1;
    while s < n && o < MAX_ORDER
      invariant o <= MAX_ORDER && s == Pow2(o)
      invariant o > 0 ==> Pow2(o - 1) < n
    {
      s := s * 2;
      o := o + 1;
    }
    if o < MAX_ORDER {
      Pow2Monotone(o, MAX_ORDER);
    }
  }

  lemma CeilOrderUnique(o: nat, q: nat, n: nat)
    requires IsCeilOrder(o, n) && IsCeilOrder(q, n)
    ensures o == q
  {
    if o < q - 1 {
      Pow2Monotone(o, q - 1);
    } else if q < o - 1 {
      Pow2Monotone(q, o - 1);
    }
  }

  /** A request of n pages, and the block that answers it. */
  ghost predicate Answers(n: nat, head: nat, b: Block, free: set<nat>) {
    && IsCeilOrder(b.order, n) && First(b) == head && Pages(b) <= free
  }

  /** The block comes from the head of the first list, from order `need` up, that is not empty. */
  ghost predicate FromLeastList(lists: seq<seq<nat>>, need: nat, head: nat) {
    exists o :: need <= o < |lists| && lists[o] != [] && lists[o][0] == head
      && forall k :: need <= k < o ==> lists[k] == []
  }

  /** Some aligned run of the size that a request of n pages is rounded up to is wholly free. */
  ghost predicate RunAvailable(n: nat, free: set<nat>) {
    exists x: Block :: IsCeilOrder(x.order, n) && Within(x, free)
  }

  /** An aligned run of free pages. */
  ghost predicate FreeRun(pages: seq<Page>, first: nat, size: nat) {
    && size > 0 && first % size == 0 && first + size <= |pages|
    && forall p :: first <= p < first + size ==> !pages[p].reserved
  }

  /** If no run is available, then none of the least power of two that holds n, wherever it starts. */
  lemma NoFreeRun(pages: seq<Page>, n: nat, first: nat, o: nat)
    requires 0 < n <= 32768 && !RunAvailable(n, FreeSet(pages))
    ensures n <= Pow2(o) < 2 * n ==> !FreeRun(pages, first, Pow2(o))
  {
    if n <= Pow2(o) < 2 * n && FreeRun(pages, first, Pow2(o)) {
      TopSize();
      if o > MAX_ORDER {
        Pow2Monotone(MAX_ORDER + 1, o);
      }
      AlignedIffDivisible(first, o);
      var x := HeadBlock(first, o);
      forall p | Covers(x, p)
        ensures p in FreeSet(pages)
      {
        CellInterval(p, o, x.cell);
      }
      assert IsCeilOrder(x.order, n) && Within(x, FreeSet(pages));
    }
  }

  lemma LeastList(lists: seq<seq<nat>>, need: nat, got: nat)
    requires need <= got < |lists| && lists[got] != [] && forall o :: need <= o < got ==> lists[o] == []
    ensures FromLeastList(lists, need, lists[got][0])
  {
  }

  lemma FloatingRange(lists: seq<seq<nat>>, pages: seq<Page>, b: Block)
    requires Floating(lists, pages, b)
    ensures First(b) + Pow2(b.order) <= |pages|
  {
    FloatingPages(lists, pages, b, First(b) + Pow2(b.order) - 1);
  }

  /** The block granted is less than twice the request, and holds it unless the request exceeds the top block size. */
  lemma CeilOrderSize(o: nat, n: nat)
    requires IsCeilOrder(o, n) && n > 0
    ensures o <= MAX_ORDER && Pow2(o) < 2 * n && (n <= Pow2(o) <==> n <= Pow2(MAX_ORDER))
    ensures n > Pow2(MAX_ORDER) ==> o == MAX_ORDER
  {
  }

  /** A block of a list yields an available run of any smaller order. */
  lemma ListedGivesRun(lists: seq<seq<nat>>, pages: seq<Page>, n: nat, need: nat, o: nat)
    requires WellFormed(lists) && Tiling(Listed(lists), FreeSet(pages)) && IsCeilOrder(need, n)
    requires need <= o <= MAX_ORDER && lists[o] != []
    ensures RunAvailable(n, FreeSet(pages))
  {
    hide FreeSet, IsCeilOrder, Listed, Tiling;
    var b := HeadBlock(lists[o][0], o);
    assert Aligned(lists[o][0], o);
    ListedByHead(lists, b);
    TilingMember(Listed(lists), FreeSet(pages), b);
    var x := Block(Cell(First(b), need), need);
    CellTwice(First(b), need, o - need);
    FirstCovered(b);
    forall p | Covers(x, p)
      ensures p in FreeSet(pages)
    {
      IncludesCovers(b, x, p);
    }
  }

  lemma RunNeedsPages(lists: seq<seq<nat>>, pages: seq<Page>, nrFree: int, n: nat)
    requires Consistent(lists, pages, nrFree) && n > nrFree
    ensures n <= Pow2(MAX_ORDER) ==> !RunAvailable(n, FreeSet(pages))
  {
    if n <= Pow2(MAX_ORDER) && RunAvailable(n, FreeSet(pages)) {
      var x: Block :| IsCeilOrder(x.order, n) && Within(x, FreeSet(pages));
      var o := FreeRunIsListed(lists, pages, x);
      assert false;
    }
  }

  /** The scan for a nonempty list comes to nothing exactly when no run is available. */
  lemma RunIffListed(lists: seq<seq<nat>>, pages: seq<Page>, nrFree: int, n: nat, need: nat, got: nat)
    requires Consistent(lists, pages, nrFree) && IsCeilOrder(need, n)
    requires need <= got <= MAX_ORDER + 1 && forall o :: need <= o < got ==> lists[o] == []
    requires got <= MAX_ORDER ==> lists[got] != []
    ensures got <= MAX_ORDER <==> RunAvailable(n, FreeSet(pages))
    ensures got <= MAX_ORDER ==> Pow2(need) <= nrFree
  {
    if got <= MAX_ORDER {
      ListedGivesRun(lists, pages, n, need, got);
    }
    if RunAvailable(n, FreeSet(pages)) {
      var x: Block :| IsCeilOrder(x.order, n) && Within(x, FreeSet(pages));
      CeilOrderUnique(x.order, need, n);
      var o := FreeRunIsListed(lists, pages, x);
    }
  }

  /** Double the size as long as it fits and the offset is aligned to twice the size. */
  method DoubleUp(offset: nat, rem: nat) returns (size: nat, order: nat)
    requires rem > 0
    ensures order <= MAX_ORDER && size == Pow2(order) <= rem
    ensures order + 1 <= MAX_ORDER && 2 * Pow2(order) <= rem ==> offset % (2 * Pow2(order)) != 0
  {
    size, order := 1, 0;
    while order + 1 <= MAX_ORDER && size * 2 <= rem && offset % (size * 2) == 0
      invariant order <= MAX_ORDER && size == Pow2(order) && size <= rem
      decreases MAX_ORDER - order
    {
      size := size * 2;
      order := order + 1;
    }
  }

  /** When the size stops doubling the block is the largest that fits: alignment never stops it first. */
  lemma Largest(lists: seq<seq<nat>>, pages: seq<Page>, offset: nat, last: nat, order: nat)
    requires Carving(lists, pages, offset, last) && order <= MAX_ORDER && Pow2(order) <= |pages| - offset
    requires order + 1 <= MAX_ORDER && 2 * Pow2(order) <= |pages| - offset ==> offset % (2 * Pow2(order)) != 0
    ensures order < MAX_ORDER ==> 2 * Pow2(order) > |pages| - offset
  {
    hide Tiling, Tagged, WellFormed, FullyMerged, Listed, Aligned;
    if order < MAX_ORDER && 2 * Pow2(order) <= |pages| - offset {
      CarveOrder(offset, |pages| - offset, last, order + 1);
      AlignedIffDivisible(offset, order + 1);
    }
  }

  /** Carving has come to page `offset`, and `carved` are the blocks made, in order. */
  ghost predicate Progress(lists: seq<seq<nat>>, pages: seq<Page>, offset: nat, last: nat, carved: seq<Block>) {
    && Carving(lists, pages, offset, last)
    && Consecutive(carved, 0, offset) && Descending(carved)
    && (forall b :: b in carved <==> b in Listed(lists))
    && (carved != [] ==> carved[|carved| - 1].order == last)
  }

  lemma CarveStep(lists: seq<seq<nat>>, pages: seq<Page>, offset: nat, last: nat, order: nat, carved: seq<Block>)
    requires Progress(lists, pages, offset, last, carved) && order <= MAX_ORDER && Pow2(order) <= |pages| - offset
    requires order + 1 <= MAX_ORDER && 2 * Pow2(order) <= |pages| - offset ==> offset % (2 * Pow2(order)) != 0
    ensures |lists| == MAX_ORDER + 1
    ensures Progress(lists[order := [offset] + lists[order]], Marked(pages, offset, Pow2(order)),
                     offset + Pow2(order), order, carved + [HeadBlock(offset, order)])
  {
    hide Carving, Listed, Consecutive, Descending, Marked, First, HeadBlock;
    Largest(lists, pages, offset, last, order);
    CarveTurn(lists, pages, offset, last, order);
    HeadBlockOrder(offset, order);
    AppendCarved(carved, HeadBlock(offset, order), offset, last);
    var b, after := HeadBlock(offset, order), Linked(lists, HeadBlock(offset, order));
    assert after == lists[order := [offset] + lists[order]];
    assert forall c :: c in carved + [b] <==> c in Listed(after);
  }

  lemma HeadBlockOrder(head: nat, order: nat)
    ensures HeadBlock(head, order).order == order
  {
  }

  lemma AppendCarved(carved: seq<Block>, b: Block, offset: nat, last: nat)
    requires Consecutive(carved, 0, offset) && Descending(carved) && First(b) == offset
    requires carved != [] ==> carved[|carved| - 1].order == last
    requires b.order < last || (b.order == MAX_ORDER && last == MAX_ORDER)
    ensures Consecutive(carved + [b], 0, offset + Pow2(b.order)) && Descending(carved + [b])
    ensures forall c :: c in carved + [b] <==> c in carved || c == b
    ensures |carved + [b]| > 0 && (carved + [b])[|carved + [b]| - 1] == b
  {
    var more := carved + [b];
    assert more[..|more| - 1] == carved;
  }

  lemma AlignedZero(o: nat)
    ensures Aligned(0, o)
  {
    CellInterval(0, o, 0);
  }

  lemma StartCarving(lists: seq<seq<nat>>, pages: seq<Page>)
    requires |lists| == MAX_ORDER + 1 && forall o :: 0 <= o < |lists| ==> lists[o] == []
    requires forall p :: 0 <= p < |pages| ==> pages[p] == Page(false, false, 0, 0)
    ensures Progress(lists, pages, 0, MAX_ORDER, [])
  {
    hide Aligned;
    AlignedZero(MAX_ORDER);
    assert Listed(lists) == {};
  }

  lemma CarvingDone(lists: seq<seq<nat>>, pages: seq<Page>, last: nat, carved: seq<Block>)
    requires Progress(lists, pages, |pages|, last, carved)
    ensures Consistent(lists, pages, |pages|) && Owned(pages, {}) && FreeSet(pages) == Run(0, |pages|)
    ensures Consecutive(carved, 0, |pages|) && Descending(carved)
    ensures forall b :: b in carved <==> b in Listed(lists)
    ensures forall b :: b in Listed(lists) <==> Initial(b, |pages|)
  {
    hide Tiling, Tagged, WellFormed, FullyMerged, Listed, Consecutive, Descending, Initial, FreeSet, Run, Owned;
    AllFree(pages);
    forall b
      ensures b in Listed(lists) <==> Initial(b, |pages|)
    {
      WholeRangeIsInitial(Listed(lists), |pages|, b);
    }
  }

  lemma AllFree(pages: seq<Page>)
    requires (forall p :: 0 <= p < |pages| ==> !pages[p].reserved) && Clean(pages)
    ensures FreeSet(pages) == Run(0, |pages|) && |FreeSet(pages)| == |pages| && Owned(pages, {})
  {
    RunMembers(0, |pages|);
    assert FreeSet(pages) == Run(0, |pages|);
  }

  /** The block that a call of buddy_free_pages gives back. */
  lemma SizedBlock(pages: seq<Page>, lists: seq<seq<nat>>, nrFree: int, first: nat, n: nat) returns (b: Block)
    requires Consistent(lists, pages, nrFree) && n > 0 && first < |pages| && pages[first].reserved
    requires pages[first].property == 0 ==> And(n, n - 1) == 0 && n <= Pow2(MAX_ORDER)
    requires var size := if pages[first].property == 0 then n else pages[first].property;
      && first + size <= |pages| && first % size == 0
      && (forall p :: first <= p < first + size ==> pages[p].reserved)
    ensures b.order <= MAX_ORDER && First(b) == first && b == HeadBlock(first, b.order) && Aligned(first, b.order)
    ensures Pow2(b.order) == if pages[first].property == 0 then n else pages[first].property
    ensures Pages(b) <= ReservedSet(pages) && Pages(b) !! FreeSet(pages)
  {
    hide Tiling, WellFormed, Listed, FullyMerged, Heads, Cell, And, Covers;
    var size := if pages[first].property == 0 then n else pages[first].property;
    var k: nat;
    if pages[first].property == 0 {
      AndTestsPow2(n);
      k :| n == Pow2(k);
      if k > MAX_ORDER {
        Pow2Monotone(MAX_ORDER, k);
      }
    } else {
      k :| k <= MAX_ORDER && pages[first].property == Pow2(k);
    }
    AlignedIffDivisible(first, k);
    b := HeadBlock(first, k);
    RunMembers(first, size);
  }

  lemma ReleasesIntro(before: seq<Page>, after: seq<Page>, b: Block, first: nat, size: nat)
    requires First(b) == first && Pow2(b.order) == size && |after| == |before|
    requires forall p :: 0 <= p < |before| ==>
      after[p] == if p == first then Page(false, false, 0, 0)
                  else if first <= p < first + size then Page(false, false, before[p].property, 0)
                  else before[p]
    ensures Releases(before, after, b)
  {
  }

  lemma TopSize()
    ensures Pow2(MAX_ORDER) == 32768
  {
    assert Pow2(5) == 32 && Pow2(10) == 32 * Pow2(5) && Pow2(15) == 32 * Pow2(10);
  }

  lemma SameUseStarts(pages: seq<Page>)
    ensures SameUse(pages, pages)
  {
  }

  lemma ClearedUse(start: seq<Page>, p: nat, after: seq<Page>)
    requires p < |start| && SameUse(Cleared(start, p), after)
    ensures SameUse(start, after)
  {
  }

  lemma HandedOutIs(before: seq<Page>, after: seq<Page>, b: Block, head: nat)
    requires HandedOut(before, after, First(b), Pow2(b.order)) && First(b) == head
    ensures head % Pow2(b.order) == 0 && head + Pow2(b.order) <= |before| == |after|
    ensures forall p :: head <= p < head + Pow2(b.order) ==>
      !before[p].reserved && after[p].reserved && !after[p].head && after[p].ref == 0
    ensures forall p :: 0 <= p < |before| && !(head <= p < head + Pow2(b.order)) ==>
      after[p].reserved == before[p].reserved && after[p].ref == before[p].ref
  {
    DivIs(head, Pow2(b.order), b.cell, 0);
  }

  /** The order of a block of `allocSize` pages. */
  method OrderOf(allocSize: nat, ghost o: nat) returns (order: nat)
    requires allocSize == Pow2(o)
    ensures order == o
  {
    order := 0;
    var size := 1;
    while size < allocSize
      invariant order <= o && size == Pow2(order)
    {
      order := order + 1;
      size := size * 2;
    }
    if order < o {
      Pow2Monotone(order, o);
    }
  }

  /** The blocks that a scan has passed when it stands at entry k of the list of order o. */
  ghost predicate Passed(lists: seq<seq<nat>>, o: nat, k: nat, b: Block) {
    b in Listed(lists) && (b.order < o || (b.order == o < |lists| && k <= |lists[o]| && First(b) in lists[o][..k]))
  }

  ghost predicate Seen(lists: seq<seq<nat>>, pages: seq<Page>, o: nat, k: nat, seen: set<Block>, counted: set<nat>) {
    && (forall b :: b in seen <==> Passed(lists, o, k, b))
    && Tiling(seen, counted) && counted <= FreeSet(pages)
  }

  lemma PassedNext(lists: seq<seq<nat>>, o: nat, k: nat, c: Block)
    requires WellFormed(lists) && o <= MAX_ORDER && k < |lists[o]|
    ensures !Passed(lists, o, k, HeadBlock(lists[o][k], o)) && HeadBlock(lists[o][k], o) in Listed(lists)
    ensures First(HeadBlock(lists[o][k], o)) == lists[o][k]
    ensures Passed(lists, o, k + 1, c) <==> Passed(lists, o, k, c) || c == HeadBlock(lists[o][k], o)
  {
    var b := HeadBlock(lists[o][k], o);
    assert Aligned(lists[o][k], o);
    ListedByHead(lists, b);
    assert lists[o][..k + 1] == lists[o][..k] + [lists[o][k]];
    if c.order == o && First(c) == First(b) {
      FirstCovered(c);
      FirstCovered(b);
    }
  }

  lemma PassedRow(lists: seq<seq<nat>>, o: nat, c: Block)
    requires WellFormed(lists) && o <= MAX_ORDER
    ensures Passed(lists, o, |lists[o]|, c) <==> Passed(lists, o + 1, 0, c)
  {
    ListedByHead(lists, c);
  }

  /** The next block of a scan is free, tagged as the scan expects, and not counted before. */
  lemma VisitBlock(lists: seq<seq<nat>>, pages: seq<Page>, nrFree: int, o: nat, k: nat, seen: set<Block>,
      counted: set<nat>)
    requires |lists| == MAX_ORDER + 1 && Consistent(lists, pages, nrFree) && o <= MAX_ORDER && k < |lists[o]|
    requires Seen(lists, pages, o, k, seen, counted)
    ensures var b := HeadBlock(lists[o][k], o);
      && lists[o][k] < |pages| && pages[lists[o][k]] == Page(false, true, Pow2(o), pages[lists[o][k]].ref)
      && Seen(lists, pages, o, k + 1, seen + {b}, counted + Pages(b))
      && |counted + Pages(b)| == |counted| + Pow2(o)
  {
    hide Tiling, WellFormed, Listed, Passed, FreeSet, FullyMerged, Cell, First, Pages, Tagged;
    var b := HeadBlock(lists[o][k], o);
    PassedNext(lists, o, k, b);
    HeadIsFree(lists, pages, b);
    PassedSubset(lists, o, k, seen);
    FreshPages(Listed(lists), FreeSet(pages), seen, counted, b);
    AddBlock(seen, counted, b);
    RunMembers(lists[o][k], Pow2(o));
    PagesAre(b, lists[o][k]);
    forall c
      ensures c in seen + {b} <==> Passed(lists, o, k + 1, c)
    {
      PassedNext(lists, o, k, c);
    }
  }

  lemma PagesAre(b: Block, first: nat)
    requires First(b) == first
    ensures Pages(b) == Run(first, Pow2(b.order))
  {
  }

  lemma PassedSubset(lists: seq<seq<nat>>, o: nat, k: nat, seen: set<Block>)
    requires forall b :: b in seen <==> Passed(lists, o, k, b)
    ensures seen <= Listed(lists)
  {
  }

  lemma HeadIsFree(lists: seq<seq<nat>>, pages: seq<Page>, b: Block)
    requires Tiling(Listed(lists), FreeSet(pages)) && Tagged(pages, Listed(lists)) && b in Listed(lists)
    ensures First(b) < |pages| && pages[First(b)] == Page(false, true, Pow2(b.order), pages[First(b)].ref)
  {
    TilingMember(Listed(lists), FreeSet(pages), b);
  }

  lemma ScanDone(lists: seq<seq<nat>>, pages: seq<Page>, nrFree: int, seen: set<Block>, counted: set<nat>)
    requires Consistent(lists, pages, nrFree) && Seen(lists, pages, MAX_ORDER + 1, 0, seen, counted)
    ensures |counted| == nrFree
  {
    forall b
      ensures b in seen <==> b in Listed(lists)
    {
      ListedByHead(lists, b);
    }
    assert seen == Listed(lists);
    SameCover(seen, counted, FreeSet(pages));
  }

  lemma FreshPages(blocks: set<Block>, free: set<nat>, seen: set<Block>, counted: set<nat>, b: Block)
    requires Tiling(blocks, free) && Tiling(seen, counted) && seen <= blocks && b in blocks && b !in seen
    ensures Pages(b) !! counted && Pages(b) <= free
  {
    forall p | p in Pages(b)
      ensures p !in counted && p in free
    {
      CoversIsPages(b, p);
    }
  }

  lemma SameCover(blocks: set<Block>, a: set<nat>, b: set<nat>)
    requires Tiling(blocks, a) && Tiling(blocks, b)
    ensures a == b
  {
  }

  /** What freeing a live block relies on. */
  lemma LiveBlock(pages: seq<Page>, live: set<Block>, head: nat) returns (b: Block)
    requires Owned(pages, live) && Heads(live, head)
    ensures b in live && First(b) == head < |pages| && pages[head].property == Pow2(b.order)
    ensures head + Pow2(b.order) <= |pages| && head % Pow2(b.order) == 0
    ensures forall p :: head <= p < head + Pow2(b.order) ==> pages[p].reserved
  {
    b :| b in live && First(b) == head;
    forall p: nat | head <= p < head + Pow2(b.order)
      ensures p in ReservedSet(pages) && pages[p].reserved
    {
      CellInterval(p, b.order, b.cell);
      assert Covers(b, p);
    }
    var last := head + Pow2(b.order) - 1;
    assert last in ReservedSet(pages);
    AlignedIffDivisible(head, b.order);
    FirstCovered(b);
  }

  lemma SameBlock(b: Block, c: Block)
    requires First(b) == First(c) && Pow2(b.order) == Pow2(c.order)
    ensures b == c
  {
    Pow2Injective(b.order, c.order);
    FirstCovered(b);
    FirstCovered(c);
  }

  /** The indices in `heads` are those of the live blocks. */
  ghost predicate Outstanding(heads: seq<nat>, live: set<Block>) {
    forall p :: p in heads <==> Heads(live, p)
  }

  lemma OneFewer(pages: seq<Page>, live: set<Block>, heads: seq<nat>, b: Block)
    requires Owned(pages, live) && Outstanding(heads, live) && NoDuplicates(heads)
    requires heads != [] && b in live && First(b) == heads[0]
    ensures Outstanding(heads[1..], live - {b}) && NoDuplicates(heads[1..])
  {
    var rest := live - {b};
    forall p
      ensures p in heads[1..] <==> Heads(rest, p)
    {
      if Heads(rest, p) {
        var c :| c in rest && First(c) == p;
        assert Heads(live, p) && p in heads;
        if p == heads[0] {
          SameHead(live, b, c);
        }
      }
      if p in heads[1..] {
        assert p in heads && p != heads[0];
        var c :| c in live && First(c) == p;
        assert c in rest;
      }
    }
  }

  lemma NothingReserved(lists: seq<seq<nat>>, pages: seq<Page>, nrFree: int, live: set<Block>, heads: seq<nat>)
    requires Consistent(lists, pages, nrFree) && Owned(pages, live) && Outstanding(heads, live) && heads == []
    ensures live == {} && FreeSet(pages) == Run(0, |pages|)
    ensures forall b :: b in Listed(lists) <==> Initial(b, |pages|)
  {
    if live != {} {
      var b :| b in live;
      assert Heads(live, First(b));
    }
    assert ReservedSet(pages) == {};
    forall p: nat | p < |pages|
      ensures !pages[p].reserved
    {
      assert p !in ReservedSet(pages);
    }
    RunMembers(0, |pages|);
    assert FreeSet(pages) == Run(0, |pages|);
    forall b
      ensures b in Listed(lists) <==> Initial(b, |pages|)
    {
      WholeRangeIsInitial(Listed(lists), |pages|, b);
    }
  }

  lemma OutstandingHead(heads: seq<nat>, live: set<Block>)
    requires heads != [] && Outstanding(heads, live)
    ensures Heads(live, heads[0])
  {
  }

  lemma ScanStarts(lists: seq<seq<nat>>, pages: seq<Page>)
    ensures Seen(lists, pages, 0, 0, {}, {})
  {
  }

  lemma RowDone(lists: seq<seq<nat>>, pages: seq<Page>, nrFree: int, o: nat, seen: set<Block>, counted: set<nat>)
    requires |lists| == MAX_ORDER + 1 && Consistent(lists, pages, nrFree) && o <= MAX_ORDER
    requires Seen(lists, pages, o, |lists[o]|, seen, counted)
    ensures Seen(lists, pages, o + 1, 0, seen, counted)
  {
    hide Tiling, WellFormed, Listed, Passed, FreeSet, FullyMerged;
    forall b
      ensures Passed(lists, o, |lists[o]|, b) <==> Passed(lists, o + 1, 0, b)
    {
      PassedRow(lists, o, b);
    }
  }

  class BuddyArea {
    var freeList: array<seq<nat>>
    var nrFree: nat
    var base: array?<Page>
    var npages: nat
    ghost var live: set<Block>        // the blocks handed out and not yet returned

    ghost predicate Initialised()
      reads this, base, freeList
    {
      base != null && npages == base.Length && freeList.Length == MAX_ORDER + 1
    }

    ghost predicate Valid()
      reads this, base, freeList
    {
      Initialised() && Consistent(freeList[..], base[..], nrFree)
    }

    ghost predicate OwnersKnown()
      reads this, base, freeList
    {
      Initialised() && Owned(base[..], live)
    }

    ghost function FreeBlocks(): set<Block>
      reads this, freeList
    {
      Listed(freeList[..])
    }

    ghost function FreePages(): set<nat>
      requires base != null
      reads this, base
    {
      FreeSet(base[..])
    }

    constructor ()
      ensures base == null && npages == 0 && nrFree == 0 && live == {}
      ensures fresh(freeList) && freeList.Length == MAX_ORDER + 1 && FreeBlocks() == {}
    {
      freeList := new seq<nat>[MAX_ORDER + 1](_ => []);
      nrFree := 0;
      base := null;
      npages := 0;
      live := {};
    }

    /** The position of `head` in the list of `order`, or None if it heads no free block of that order. */
    method FindInOrderList(order: nat, head: nat) returns (le: Option<nat>)
      requires order < freeList.Length
      ensures le.None? <==> head !in freeList[order]
      ensures le.Some? ==> le.value < |freeList[order]| && freeList[order][le.value] == head
    {
      var k := 0;
      while k < |freeList[order]|
        invariant k <= |freeList[order]| && head !in freeList[order][..k]
      {
        if freeList[order][k] == head {
          return Some(k);
        }
        k := k + 1;
      }
      return None;
    }

    /** Tag `head` with the block size and put it in front of its list. */
    method PutBlock(head: nat, order: nat)
      requires base != null && head < base.Length && order < freeList.Length
      modifies freeList, base
      ensures base[..] == Marked(old(base[..]), head, Pow2(order))
      ensures freeList[..] == old(freeList[..])[order := [head] + old(freeList[..])[order]]
    {
      base[head] := base[head].(head := true, property := Order2Size(order));
      freeList[order] := [head] + freeList[order];
    }

    /** Take entry `le` out of the list of `order`, and the tag off its page. */
    method TakeBlock(order: nat, le: nat) returns (head: nat)
      requires base != null && order < freeList.Length && le < |freeList[order]| && freeList[order][le] < base.Length
      modifies freeList, base
      ensures head == old(freeList[order][le])
      ensures base[..] == old(base[..])[head := old(base[..])[head].(head := false)]
      ensures freeList[..] == Unlinked(old(freeList[..]), order, le)
    {
      head := freeList[order][le];
      freeList[order] := freeList[order][..le] + freeList[order][le + 1..];
      base[head] := base[head].(head := false);
    }

    method ListsInit()
      requires freeList.Length == MAX_ORDER + 1
      modifies freeList
      ensures forall o :: 0 <= o < freeList.Length ==> freeList[o] == []
    {
      var o := 0;
      while o <= MAX_ORDER
        invariant 0 <= o <= MAX_ORDER + 1
        invariant forall q :: 0 <= q < o ==> freeList[q] == []
      {
        freeList[o] := [];
        o := o + 1;
      }
    }

    /** Take over the pages described by `descriptors` and carve them into free blocks. */
    method InitMemmap(descriptors: array<Page>, n: nat) returns (ghost carved: seq<Block>)
      requires n > 0 && descriptors.Length == n && freeList.Length == MAX_ORDER + 1
      requires base != null ==> base == descriptors && npages == n
      requires forall p :: 0 <= p < n ==> descriptors[p].reserved
      modifies this, freeList, descriptors
      ensures base == descriptors && freeList == old(freeList) && live == {}
      ensures Valid() && OwnersKnown() && FreePages() == Run(0, n)
      ensures Consecutive(carved, 0, n) && Descending(carved)
      ensures forall p :: 0 <= p < n ==> !base[p].reserved && base[p].ref == 0
      ensures forall b :: b in carved <==> b in FreeBlocks()
      ensures forall b :: b in FreeBlocks() <==> Initial(b, n)
    {
      hide Progress, Consistent, Owned, Consecutive, Initial, Listed, FreeSet, Run, Descending, HeadBlock;
      if base == null {
        base := descriptors;
        npages := n;
      }
      WipePages(descriptors);
      ListsInit();
      nrFree := 0;
      live := {};
      carved := [];
      StartCarving(freeList[..], base[..]);

      var offset: nat, rem: nat := 0, n;
      ghost var last := MAX_ORDER;
      while rem > 0
        invariant offset + rem == n && base == descriptors && npages == n && nrFree == offset && live == {}
        invariant freeList == old(freeList) && freeList.Length == MAX_ORDER + 1
        invariant Progress(freeList[..], base[..], offset, last, carved)
        invariant forall p :: 0 <= p < n ==> !base[p].reserved && base[p].ref == 0
      {
        var size, order := DoubleUp(offset, rem);
        CarveStep(freeList[..], base[..], offset, last, order, carved);
        PutBlock(offset, order);
        carved := carved + [HeadBlock(offset, order)];
        last := order;
        nrFree := nrFree + size;
        offset := offset + size;
        rem := rem - size;
      }
      CarvingDone(freeList[..], base[..], last, carved);
    }

    /** No page is reserved any more, and nothing is on record. */
    static method WipePages(descriptors: array<Page>)
      requires forall p :: 0 <= p < descriptors.Length ==> descriptors[p].reserved
      modifies descriptors
      ensures forall p :: 0 <= p < descriptors.Length ==> descriptors[p] == Page(false, false, 0, 0)
    {
      var p := 0;
      while p < descriptors.Length
        invariant 0 <= p <= descriptors.Length
        invariant forall q :: 0 <= q < p ==> descriptors[q] == Page(false, false, 0, 0)
        invariant forall q :: p <= q < descriptors.Length ==> descriptors[q].reserved
      {
        descriptors[p] := Page(false, false, 0, 0);
        p := p + 1;
      }
    }

    /** The buddy comes out of its list, and the head of the union is the first of the two. */
    method Absorb(block: nat, order: nat, buddyIdx: nat, le: nat) returns (head: nat)
      requires Initialised() && order <= MAX_ORDER && block < npages && buddyIdx < npages
      requires le < |freeList[order]| && freeList[order][le] == buddyIdx
      requires !base[block].head && base[block].property == 0
      modifies freeList, base
      ensures head == if buddyIdx < block then buddyIdx else block
      ensures base[..] == Cleared(old(base[..]), buddyIdx)
      ensures freeList[..] == Unlinked(old(freeList[..]), order, le)
      ensures old(Clean(base[..])) ==> Clean(base[..])
    {
      hide Clean;
      if Clean(base[..]) {
        ClearedIsClean(base[..], buddyIdx);
      }
      head := block;
      var taken := TakeBlock(order, le);
      base[buddyIdx] := base[buddyIdx].(property := 0);
      if buddyIdx < block {
        base[block] := base[block].(head := false, property := 0);
        head := buddyIdx;
      }
    }

    method InsertAndMerge(first: nat, startOrder: nat)
      requires Initialised() && startOrder <= MAX_ORDER && Aligned(first, startOrder)
      requires Floating(freeList[..], base[..], HeadBlock(first, startOrder))
      modifies freeList, base
      ensures Consistent(freeList[..], base[..], |FreePages()|)
      ensures FreePages() == old(FreePages())
      ensures forall p :: 0 <= p < npages && old(base[p].reserved) ==> base[p] == old(base[p])
      ensures old(Clean(base[..])) ==> Clean(base[..])
      ensures SameUse(old(base[..]), base[..])
    {
      hide Floating, Consistent, FreeSet, Listed, Xor, Cell, Clean, SameUse;
      ghost var start := base[..];
      assert SameUse(start, start) by {
        SameUseStarts(start);
      }
      var block, order := first, startOrder;
      var size := Order2Size(order);
      ghost var b := HeadBlock(first, order);
      while order < MAX_ORDER
        invariant order <= MAX_ORDER && b.order == order && First(b) == block && size == Pow2(order)
        invariant Floating(freeList[..], base[..], b)
        invariant FreePages() == old(FreePages())
        invariant forall p :: 0 <= p < npages && old(base[p].reserved) ==> base[p] == old(base[p])
        invariant (old(Clean(base[..])) ==> Clean(base[..])) && SameUse(start, base[..])
      {
        var idx := block;
        var buddyIdx := Xor(idx, size);
        assert buddyIdx == First(Buddy(b)) by {
          XorFindsBuddy(b);
        }
        BuddyInList(freeList[..], base[..], b);
        if buddyIdx >= npages {
          break;
        }
        var le := FindInOrderList(order, buddyIdx);
        if le == None {
          break;
        }
        MergeTurn(freeList[..], base[..], b, le.value);
        ClearedSameUse(start, base[..], buddyIdx);
        block := Absorb(block, order, buddyIdx, le.value);
        order := order + 1;
        size := size * 2;
        b := Parent(b);
      }
      Landing(freeList[..], base[..], b);
      if old(Clean(base[..])) {
        MarkedIsClean(base[..], block, Pow2(order));
      }
      MarkedSameUse(start, base[..], block, Pow2(order));
      PutBlock(block, order);
    }

    /** Halve the block at `blk` until it has order `need`, listing the right halves. */
    method SplitDown(blk: nat, from: nat, need: nat, ghost whole: Block) returns (ghost b: Block)
      requires Initialised() && need <= from <= MAX_ORDER && whole.order == from && First(whole) == blk < npages
      requires Floating(freeList[..], Cleared(base[..], blk), whole)
      modifies freeList, base
      ensures b.order == need && First(b) == blk
      ensures Floating(freeList[..], Cleared(base[..], blk), b)
      ensures FreeSet(Cleared(base[..], blk)) == old(FreeSet(Cleared(base[..], blk)))
      ensures forall p :: 0 <= p < npages && old(base[p].reserved) ==> base[p] == old(base[p])
      ensures old(Clean(Cleared(base[..], blk))) ==> Clean(Cleared(base[..], blk))
      ensures SameUse(old(Cleared(base[..], blk)), Cleared(base[..], blk))
    {
      hide Floating, FreeSet, Cell, Clean, SameUse;
      ghost var start := Cleared(base[..], blk);
      SameUseStarts(start);
      var got := from;
      var curSize := Order2Size(got);
      b := whole;
      while got > need
        invariant need <= got <= from && b.order == got && First(b) == blk && curSize == Pow2(got)
        invariant Floating(freeList[..], Cleared(base[..], blk), b)
        invariant FreeSet(Cleared(base[..], blk)) == old(FreeSet(Cleared(base[..], blk)))
        invariant forall p :: 0 <= p < npages && old(base[p].reserved) ==> base[p] == old(base[p])
        invariant old(Clean(Cleared(base[..], blk))) ==> Clean(Cleared(base[..], blk))
        invariant SameUse(start, Cleared(base[..], blk))
      {
        got := got - 1;
        curSize := curSize / 2;
        var right := blk + curSize;
        SplitTurn(freeList[..], Cleared(base[..], blk), b);
        HalfHeads(b);
        ghost var pages := Marked(Cleared(base[..], blk), right, curSize);
        if old(Clean(Cleared(base[..], blk))) {
          MarkedIsClean(Cleared(base[..], blk), right, curSize);
        }
        MarkedSameUse(start, Cleared(base[..], blk), right, curSize);
        PutBlock(right, got);
        assert Cleared(base[..], blk) == pages;
        b := LeftHalf(b);
      }
    }

    /** Mark the pages of a block as allocated. */
    method ReserveBlock(blk: nat, allocSize: nat, ghost before: seq<Page>, ghost lists: seq<seq<nat>>, ghost b: Block)
      requires base != null && blk < base.Length && First(b) == blk && allocSize == Pow2(b.order)
      requires Floating(lists, before, b)
      requires |before| == base.Length && before[blk] == base[blk].(head := false, property := 0)
      requires forall p :: 0 <= p < base.Length && p != blk ==> before[p] == base[p]
      requires base[blk].property == allocSize
      modifies base
      ensures Grants(before, base[..], b)
    {
      hide Floating;
      FloatingRange(lists, before, b);
      ghost var taken := base[..];
      var i := 0;
      while i < allocSize
        invariant 0 <= i <= allocSize && blk + allocSize <= base.Length
        invariant forall p :: 0 <= p < base.Length ==>
          base[p] == if blk <= p < blk + i then taken[p].(reserved := true, head := false, ref := 0) else taken[p]
      {
        base[blk + i] := base[blk + i].(reserved := true, head := false, ref := 0);
        i := i + 1;
      }
    }

    /** The block that was split off is tagged and its pages are reserved. */
    method Grant(blk: nat, need: nat, ghost b: Block)
      requires base != null && blk < base.Length && First(b) == blk && b.order == need
      requires Floating(freeList[..], Cleared(base[..], blk), b)
      modifies base
      ensures var before := Cleared(old(base[..]), blk);
        && Floating(freeList[..], before, b) && Grants(before, base[..], b) && b.order <= MAX_ORDER
        && Unheaded(before, b) && (Clean(before) ==> Clean(base[..]))
        && Pages(b) <= FreeSet(before) && FreeSet(base[..]) == FreeSet(before) - Pages(b)
        && Consistent(freeList[..], base[..], |FreeSet(before)| - Pow2(b.order))
        && (forall p :: 0 <= p < base.Length && before[p].reserved ==> base[p] == before[p])
      ensures base[blk].property == Pow2(b.order) <= |FreeSet(Cleared(old(base[..]), blk))|
    {
      hide Consistent, Floating, FreeSet, Grants, First, Pages, Pow2, Unheaded, Clean;
      var allocSize := Order2Size(need);
      ghost var before := Cleared(base[..], blk);
      base[blk] := base[blk].(property := allocSize);
      ReserveBlock(blk, allocSize, before, freeList[..], b);
      GrantedStaysConsistent(freeList[..], before, base[..], b);
    }

    /** The first list, from order `need` up, that is not empty; 16 if there is none. */
    method FirstListed(need: nat) returns (got: nat)
      requires Initialised() && need <= MAX_ORDER
      ensures need <= got <= MAX_ORDER + 1 && (got <= MAX_ORDER ==> freeList[got] != [])
      ensures forall o :: need <= o < got ==> freeList[o] == []
    {
      got := need;
      while got <= MAX_ORDER && freeList[got] == []
        invariant need <= got <= MAX_ORDER + 1
        invariant forall o :: need <= o < got ==> freeList[o] == []
      {
        got := got + 1;
      }
    }

    /** Take the first block of list `got`, and hand out as much of it as is needed. */
    method Serve(need: nat, got: nat) returns (blk: nat, ghost b: Block)
      requires Valid() && need <= got <= MAX_ORDER && freeList[got] != []
      modifies this, freeList, base
      ensures Valid() && base == old(base) && freeList == old(freeList) && npages == old(npages)
      ensures b.order == need && First(b) == blk == old(freeList[got])[0] && Pages(b) <= old(FreePages())
      ensures FreePages() == old(FreePages()) - Pages(b) && live == old(live) + {b}
      ensures HandedOut(old(base[..]), base[..], blk, Pow2(need)) && base[blk].property == Pow2(need)
      ensures forall p :: 0 <= p < npages && old(base[p].reserved) ==> base[p] == old(base[p])
      ensures old(OwnersKnown()) ==> OwnersKnown()
    {
      hide Consistent, Floating, Owned, FreeSet, Listed, Grants, Cell, Aligned, First, Pages, Unlinked, Pow2, Unheaded,
        Clean, ReservedSet, Heads, SameUse, HandedOut;
      TakeFirst(freeList[..], base[..], nrFree, got);
      blk := TakeBlock(got, 0);
      b := HeadBlock(blk, got);
      assert Cleared(base[..], blk) == Cleared(old(base[..]), blk);
      b := SplitDown(blk, got, need, b);

      ghost var before := Cleared(base[..], blk);
      ClearedUse(old(base[..]), blk, before);
      Grant(blk, need, b);
      nrFree := nrFree - Order2Size(need);
      GrantedIsHandedOut(old(base[..]), before, base[..], b);
      if old(OwnersKnown()) {
        OwnedIsClean(old(base[..]), live);
        ClearedIsClean(old(base[..]), blk);
        OwnersUnaffected(old(base[..]), before, live);
        GrantedIsOwned(before, base[..], live, b);
      }
      live := live + {b};
    }

    /** Hand out an aligned block of at least n pages, if n is at most 2^15. */
    method AllocPages(n: nat) returns (r: Option<nat>, ghost b: Block)
      requires Valid() && n > 0
      modifies this, freeList, base
      ensures Valid() && base == old(base) && freeList == old(freeList)
      ensures r.None? <==> n > old(nrFree) || !RunAvailable(n, old(FreePages()))
      ensures n <= 32768 ==> (r.None? <==> !RunAvailable(n, old(FreePages())))
      ensures r.None? && n <= 32768 ==> forall first: nat, o: nat ::
        n <= Pow2(o) < 2 * n ==> !FreeRun(old(base[..]), first, Pow2(o))
      ensures r.None? ==> nrFree == old(nrFree) && live == old(live) && base[..] == old(base[..])
      ensures r.None? ==> freeList[..] == old(freeList[..])
      ensures r.Some? ==> Answers(n, r.value, b, old(FreePages())) && FromLeastList(old(freeList[..]), b.order, r.value)
      ensures r.Some? ==> Pow2(b.order) < 2 * n && (n <= Pow2(b.order) <==> n <= 32768)
      ensures r.Some? && n > 32768 ==> Pow2(b.order) == 32768
      ensures r.Some? ==> FreePages() == old(FreePages()) - Pages(b) && live == old(live) + {b}
      ensures r.Some? ==> base[r.value].property == Pow2(b.order)
      ensures forall p :: 0 <= p < npages && old(base[p].reserved) ==> base[p] == old(base[p])
      ensures r.Some? ==> r.value % Pow2(b.order) == 0 && r.value + Pow2(b.order) <= npages
      ensures r.Some? ==> forall p :: r.value <= p < r.value + Pow2(b.order) ==>
        !old(base[p].reserved) && base[p].reserved && !base[p].head && base[p].ref == 0
      ensures r.Some? ==> forall p :: 0 <= p < npages && !(r.value <= p < r.value + Pow2(b.order)) ==>
        base[p].reserved == old(base[p].reserved) && base[p].ref == old(base[p].ref)
      ensures old(OwnersKnown()) ==> OwnersKnown()
    {
      hide Consistent, Owned, FreeSet, Listed, IsCeilOrder, RunAvailable, Cell, First, Pages, Pow2, FromLeastList,
        HandedOut;
      b := Block(0, 0);
      TopSize();
      forall first: nat, o: nat | n <= 32768 && !RunAvailable(n, FreePages())
        ensures n <= Pow2(o) < 2 * n ==> !FreeRun(base[..], first, Pow2(o))
      {
        NoFreeRun(base[..], n, first, o);
      }
      if n > nrFree {
        RunNeedsPages(freeList[..], base[..], nrFree, n);
        return None, b;
      }
      var need := Size2OrderCeil(n);
      CeilOrderSize(need, n);
      var got := FirstListed(need);
      RunIffListed(freeList[..], base[..], nrFree, n, need, got);
      if got > MAX_ORDER {
        return None, b;
      }
      LeastList(freeList[..], need, got);
      var blk;
      blk, b := Serve(need, got);
      HandedOutIs(old(base[..]), base[..], b, blk);
      r := Some(blk);
    }

    /**
     Take back the block at `first`, whose size is on record, or a run of n pages inside a block, n a power of
     two.
     */
    method FreePagesAt(first: nat, n: nat) returns (ghost b: Block)
      requires Valid() && n > 0 && first < npages
      requires base[first].property == 0 ==> And(n, n - 1) == 0 && n <= Pow2(MAX_ORDER)
      requires var size := if base[first].property == 0 then n else base[first].property;
        && first + size <= npages && first % size == 0
        && (forall p :: first <= p < first + size ==> base[p].reserved)
      modifies this, freeList, base
      ensures Valid() && base == old(base) && freeList == old(freeList)
      ensures b.order <= MAX_ORDER && First(b) == first
      ensures Pow2(b.order) == if old(base[first].property) == 0 then n else old(base[first].property)
      ensures FreePages() == old(FreePages()) + Pages(b) && Pages(b) !! old(FreePages())
      ensures live == old(live) - {b}
      ensures forall p :: first <= p < first + Pow2(b.order) ==> p < npages && !base[p].reserved && base[p].ref == 0
      ensures forall p :: 0 <= p < npages && !(first <= p < first + Pow2(b.order)) ==>
        base[p].reserved == old(base[p].reserved) && base[p].ref == old(base[p].ref)
      ensures old(OwnersKnown()) && b in old(live) ==> OwnersKnown()
    {
      hide Consistent, Floating, Owned, FreeSet, ReservedSet, Listed, Releases, Cell, HeadBlock, Pages, And, Aligned,
        SameUse, Clean;
      var allocSize := base[first].property;
      if allocSize == 0 {
        allocSize := n;
      }
      ghost var before, lists := base[..], freeList[..];
      b := SizedBlock(before, lists, nrFree, first, n);
      var p := first;
      while p != first + allocSize
        invariant first <= p <= first + allocSize <= base.Length
        invariant forall q :: 0 <= q < base.Length ==>
          base[q] == if first <= q < p then Page(false, false, before[q].property, 0) else before[q]
        modifies base
      {
        base[p] := base[p].(reserved := false, head := false, ref := 0);
        p := p + 1;
      }
      base[first] := base[first].(property := 0);
      assert Releases(before, base[..], b) by {
        ReleasesIntro(before, base[..], b, first, allocSize);
      }
      var order := OrderOf(allocSize, b.order);
      assert freeList[..] == lists;
      ReleasedIsFloating(lists, before, base[..], nrFree, b);
      ghost var released := base[..];
      InsertAndMerge(first, order);
      ReleasedIsTakenBack(before, released, base[..], b);
      nrFree := nrFree + allocSize;
      if b in live && old(OwnersKnown()) {
        ReleasedIsDisowned(before, released, live, b);
        OwnedIsClean(released, live - {b});
        OwnersUnaffected(released, base[..], live - {b});
      }
      live := live - {b};
    }

    /** Walk all lists, check every block against its descriptor, and add up the sizes. */
    method ScanFreeAndCheck() returns (sum: nat)
      requires Valid()
      ensures sum == nrFree
    {
      hide Listed, Tagged, Consistent, Seen;
      sum := 0;
      var o := 0;
      ghost var seen: set<Block>, counted: set<nat> := {}, {};
      ScanStarts(freeList[..], base[..]);
      while o <= MAX_ORDER
        invariant 0 <= o <= MAX_ORDER + 1
        invariant Seen(freeList[..], base[..], o, 0, seen, counted) && sum == |counted|
      {
        var k := 0;
        while k < |freeList[o]|
          invariant 0 <= k <= |freeList[o]|
          invariant Seen(freeList[..], base[..], o, k, seen, counted) && sum == |counted|
        {
          var p := freeList[o][k];
          VisitBlock(freeList[..], base[..], nrFree, o, k, seen, counted);
          assert p < npages;
          assert !base[p].reserved;
          assert base[p].head;
          assert base[p].property == Order2Size(o);
          sum := sum + base[p].property;
          seen, counted := seen + {HeadBlock(p, o)}, counted + Pages(HeadBlock(p, o));
          k := k + 1;
        }
        RowDone(freeList[..], base[..], nrFree, o, seen, counted);
        o := o + 1;
      }
      ScanDone(freeList[..], base[..], nrFree, seen, counted);
    }

    /** Return every outstanding block, in whatever order the list gives. */
    method FreeAll(heads: seq<nat>)
      requires Valid() && OwnersKnown() && NoDuplicates(heads) && Outstanding(heads, live)
      modifies this, freeList, base
      ensures Valid() && base == old(base) && npages == old(npages) && live == {}
      ensures FreePages() == Run(0, npages)
      ensures forall b :: b in FreeBlocks() <==> Initial(b, npages)
    {
      hide Consistent, Owned, Listed, FreeSet, Outstanding, NoDuplicates, Initial, Run, Heads;
      var k := 0;
      assert heads[0..] == heads;
      while k < |heads|
        invariant 0 <= k <= |heads| && Valid() && OwnersKnown()
        invariant base == old(base) && freeList == old(freeList) && npages == old(npages)
        invariant Outstanding(heads[k..], live) && NoDuplicates(heads[k..])
      {
        OutstandingHead(heads[k..], live);
        ghost var b := LiveBlock(base[..], live, heads[k]);
        OneFewer(base[..], live, heads[k..], b);
        assert heads[k..][1..] == heads[k + 1..];
        ghost var c := FreePagesAt(heads[k], 1);
        SameBlock(b, c);
        k := k + 1;
      }
      NothingReserved(freeList[..], base[..], nrFree, live, heads[k..]);
    }
  }
  // ---------------------------------------------------------------- what holds in every reachable state

  /** The free blocks are the maximal aligned blocks of the free pages. */
  lemma FreeBlocksAreMaximal(area: BuddyArea, b: Block)
    requires area.Valid()
    ensures b in area.FreeBlocks() <==> Maximal(b, area.FreePages())
  {
    MergedTilingIsMaximal(area.FreeBlocks(), area.FreePages(), b);
  }

  /** However two states came about, if the same pages are free in them, so are the same blocks. */
  lemma FreeBlocksAreCanonical(area: BuddyArea, other: BuddyArea)
    requires area.Valid() && other.Valid() && area.FreePages() == other.FreePages()
    ensures area.FreeBlocks() == other.FreeBlocks()
  {
    MergedTilingIsUnique(area.FreeBlocks(), other.FreeBlocks(), area.FreePages());
  }

  /** Free and allocated blocks together cut up the managed pages. */
  lemma BlocksPartitionPages(area: BuddyArea)
    requires area.Valid() && area.OwnersKnown()
    ensures Tiling(area.FreeBlocks() + area.live, Run(0, area.npages)) && area.FreeBlocks() !! area.live
  {
    RunMembers(0, area.npages);
    var free, taken := FreeSet(area.base[..]), ReservedSet(area.base[..]);
    JoinTilings(area.FreeBlocks(), free, area.live, taken, Run(0, area.npages));
  }

  lemma JoinTilings(a: set<Block>, f: set<nat>, b: set<Block>, g: set<nat>, all: set<nat>)
    requires Tiling(a, f) && Tiling(b, g) && f !! g && forall p :: p in all <==> p in f || p in g
    ensures Tiling(a + b, all) && a !! b
  {
    forall c | c in a + b
      ensures c.order <= MAX_ORDER && Within(c, all)
    {
      TilingMember(if c in a then a else b, if c in a then f else g, c);
    }
    forall c | c in a
      ensures c !in b
    {
      TilingMember(a, f, c);
      if c in b {
        TilingMember(b, g, c);
      }
    }
    var s := a + b;
    forall p | p in all
      ensures exists c :: c in s && Covers(c, p)
    {
      if p in f {
        var c :| c in a && Covers(c, p);
        assert c in s;
      } else {
        var c :| c in b && Covers(c, p);
        assert c in s;
      }
    }
  }
}
