/**
 The two data structures of the buddy allocator, the free list of every order and the page
 descriptors, and how each elementary update of them changes the set of free blocks.
 */
module BuddyLists {
  import opened Words
  import opened BuddyTheory

  /** The fields of `struct Page` that the allocator uses; `head` is the flag PG_property. */
  datatype Page = Page(reserved: bool, head: bool, property: nat, ref: int)

  // ---------------------------------------------------------------- free lists

  ghost predicate NoDuplicates(s: seq<nat>) {
    forall j, k :: 0 <= j < k < |s| ==> s[j] != s[k]
  }

  /** One list per order, of the indices of distinct pages that can head a block of that order. */
  ghost predicate WellFormed(lists: seq<seq<nat>>) {
    && |lists| == MAX_ORDER + 1
    && (forall o, i :: 0 <= o < |lists| && i in lists[o] ==> Aligned(i, o))
    && (forall o :: 0 <= o < |lists| ==> NoDuplicates(lists[o]))
  }

  ghost function Listed(lists: seq<seq<nat>>): set<Block> {
    set o, i | 0 <= o < |lists| && i in lists[o] :: Block(Cell(i, o), o)
  }

  lemma ListedByHead(lists: seq<seq<nat>>, b: Block)
    requires WellFormed(lists)
    ensures b in Listed(lists) <==> b.order <= MAX_ORDER && First(b) in lists[b.order]
  {
    if b.order <= MAX_ORDER {
      FirstCovered(b);
      if First(b) in lists[b.order] {
        assert b == Block(Cell(First(b), b.order), b.order);
      }
      if b in Listed(lists) {
        var o, i :| 0 <= o < |lists| && i in lists[o] && b == Block(Cell(i, o), o);
        assert Aligned(i, o) && i == First(b);
      }
    }
  }

  /** list_add at the front of the list of `b`'s order */
  function Linked(lists: seq<seq<nat>>, b: Block): seq<seq<nat>>
    requires b.order < |lists|
  {
    lists[b.order := [First(b)] + lists[b.order]]
  }

  /** list_del of entry k of the list of order o */
  function Unlinked(lists: seq<seq<nat>>, o: nat, k: nat): seq<seq<nat>>
    requires o < |lists| && k < |lists[o]|
  {
    lists[o := lists[o][..k] + lists[o][k + 1..]]
  }

  lemma LinkAdds(lists: seq<seq<nat>>, b: Block)
    requires WellFormed(lists) && b.order <= MAX_ORDER && b !in Listed(lists)
    ensures WellFormed(Linked(lists, b)) && Listed(Linked(lists, b)) == Listed(lists) + {b}
  {
    var after := Linked(lists, b);
    ListedByHead(lists, b);
    FirstCovered(b);
    assert WellFormed(after) by {
      forall o, i | 0 <= o < |after| && i in after[o]
        ensures Aligned(i, o)
      {
      }
    }
    forall c
      ensures c in Listed(after) <==> c in Listed(lists) + {b}
    {
      ListedByHead(after, c);
      ListedByHead(lists, c);
      if c.order == b.order && First(c) == First(b) {
        FirstCovered(c);
      }
    }
  }

  lemma UnlinkRemoves(lists: seq<seq<nat>>, b: Block, k: nat)
    requires WellFormed(lists) && b.order <= MAX_ORDER && k < |lists[b.order]| && lists[b.order][k] == First(b)
    ensures WellFormed(Unlinked(lists, b.order, k)) && Listed(Unlinked(lists, b.order, k)) == Listed(lists) - {b}
    ensures b in Listed(lists)
  {
    var o, after := b.order, Unlinked(lists, b.order, k);
    assert forall i :: i in after[o] <==> i in lists[o] && i != First(b);
    assert WellFormed(after);
    forall c
      ensures c in Listed(after) <==> c in Listed(lists) - {b}
    {
      ListedByHead(after, c);
      ListedByHead(lists, c);
      if c.order == o && First(c) == First(b) {
        FirstCovered(c);
        FirstCovered(b);
      }
    }
    ListedByHead(lists, b);
  }

  // ---------------------------------------------------------------- page descriptors

  /** The pages that are not allocated. */
  ghost function FreeSet(pages: seq<Page>): set<nat> {
    set p | 0 <= p < |pages| && !pages[p].reserved
  }

  ghost function ReservedSet(pages: seq<Page>): set<nat> {
    set p | 0 <= p < |pages| && pages[p].reserved
  }

  ghost predicate Heads(blocks: set<Block>, p: nat) {
    exists b :: b in blocks && First(b) == p
  }

  /** The descriptors tell the blocks of `blocks`: heads are flagged and carry the size. */
  ghost predicate Tagged(pages: seq<Page>, blocks: set<Block>) {
    && (forall b :: b in blocks ==>
          First(b) < |pages| && pages[First(b)].head && pages[First(b)].property == Pow2(b.order))
    && (forall p :: 0 <= p < |pages| && pages[p].head ==> !pages[p].reserved && Heads(blocks, p))
    && (forall p :: 0 <= p < |pages| && !pages[p].head ==> Recordable(pages[p].property))
  }

  /** What other pages may have on record: nothing, or the size of a block. */
  ghost predicate Recordable(property: nat) {
    property == 0 || exists k: nat :: k <= MAX_ORDER && property == Pow2(k)
  }

  lemma SameHead(blocks: set<Block>, b: Block, c: Block)
    requires Disjoint(blocks) && b in blocks && c in blocks && First(b) == First(c)
    ensures b == c
  {
    FirstCovered(b);
    FirstCovered(c);
  }

  lemma Untag(pages: seq<Page>, blocks: set<Block>, b: Block)
    requires Tagged(pages, blocks) && Disjoint(blocks) && b in blocks
    ensures Tagged(pages[First(b) := pages[First(b)].(head := false, property := 0)], blocks - {b})
  {
    forall c | c in blocks && First(c) == First(b)
      ensures c == b
    {
      SameHead(blocks, b, c);
    }
    var after, rest := pages[First(b) := pages[First(b)].(head := false, property := 0)], blocks - {b};
    forall p | 0 <= p < |after| && after[p].head
      ensures Heads(rest, p)
    {
      var c :| c in blocks && First(c) == p;
      assert c in rest;
    }
  }

  lemma Tag(pages: seq<Page>, blocks: set<Block>, b: Block)
    requires Tagged(pages, blocks) && First(b) < |pages| && !pages[First(b)].reserved
    requires b !in blocks && Disjoint(blocks + {b})
    ensures Tagged(pages[First(b) := pages[First(b)].(head := true, property := Pow2(b.order))], blocks + {b})
  {
    var after, more := pages[First(b) := pages[First(b)].(head := true, property := Pow2(b.order))], blocks + {b};
    forall c | c in blocks
      ensures First(c) != First(b)
    {
      if First(c) == First(b) {
        SameHead(more, b, c);
      }
    }
    forall p | 0 <= p < |after| && after[p].head
      ensures Heads(more, p)
    {
      if p == First(b) {
        assert b in more;
      } else {
        var c :| c in blocks && First(c) == p;
        assert c in more;
      }
    }
  }

  // ---------------------------------------------------------------- the allocator's invariant

  /** The free lists are the fully merged tiling of the free pages, and descriptors and counter agree with them. */
  ghost predicate Consistent(lists: seq<seq<nat>>, pages: seq<Page>, nrFree: int) {
    && WellFormed(lists)
    && Tiling(Listed(lists), FreeSet(pages))
    && FullyMerged(Listed(lists))
    && Tagged(pages, Listed(lists))
    && nrFree == |FreeSet(pages)|
  }

  /** Blocks `live` partition the allocated pages, and each has its size on record at its head and nowhere else. */
  ghost predicate Owned(pages: seq<Page>, live: set<Block>) {
    && Tiling(live, ReservedSet(pages))
    && (forall b :: b in live ==> First(b) < |pages| && pages[First(b)].property == Pow2(b.order))
    && (forall p :: 0 <= p < |pages| && pages[p].reserved && pages[p].property > 0 ==> Heads(live, p))
    && Clean(pages)
  }

  /** Nothing is left on record for free pages other than heads. */
  ghost predicate Clean(pages: seq<Page>) {
    forall p :: 0 <= p < |pages| && !pages[p].head && !pages[p].reserved ==> pages[p].property == 0
  }

  /** The same pages are allocated, and the reference counts are the same. */
  ghost predicate SameUse(before: seq<Page>, after: seq<Page>) {
    && |after| == |before|
    && forall p :: 0 <= p < |before| ==> after[p].reserved == before[p].reserved && after[p].ref == before[p].ref
  }

  lemma ClearedSameUse(before: seq<Page>, pages: seq<Page>, p: nat)
    requires SameUse(before, pages) && p < |pages|
    ensures SameUse(before, Cleared(pages, p))
  {
  }

  lemma MarkedSameUse(before: seq<Page>, pages: seq<Page>, p: nat, size: nat)
    requires SameUse(before, pages) && p < |pages|
    ensures SameUse(before, Marked(pages, p, size))
  {
  }

  /** Pages first, ..., first + size - 1 are allocated, without flags and references; all others are used as before. */
  ghost predicate HandedOut(before: seq<Page>, after: seq<Page>, first: nat, size: nat) {
    && |after| == |before| && first + size <= |before|
    && (forall p :: first <= p < first + size ==>
          !before[p].reserved && after[p].reserved && !after[p].head && after[p].ref == 0)
    && (forall p :: 0 <= p < |before| && !(first <= p < first + size) ==>
          after[p].reserved == before[p].reserved && after[p].ref == before[p].ref)
  }

  /** They are free, without references; all others are used as before. */
  ghost predicate TakenBack(before: seq<Page>, after: seq<Page>, first: nat, size: nat) {
    && |after| == |before| && first + size <= |before|
    && (forall p :: first <= p < first + size ==> before[p].reserved && !after[p].reserved && after[p].ref == 0)
    && (forall p :: 0 <= p < |before| && !(first <= p < first + size) ==>
          after[p].reserved == before[p].reserved && after[p].ref == before[p].ref)
  }

  lemma GrantedIsHandedOut(start: seq<Page>, before: seq<Page>, after: seq<Page>, b: Block)
    requires SameUse(start, before) && Grants(before, after, b) && Pages(b) <= FreeSet(before)
    ensures HandedOut(start, after, First(b), Pow2(b.order))
  {
    hide First, Pow2, Run, FreeSet;
    RunWithin(before, First(b), Pow2(b.order), false);
    var lo, n := First(b), Pow2(b.order);
    forall p | 0 <= p < |start|
      ensures if lo <= p < lo + n then !start[p].reserved && after[p].reserved && !after[p].head && after[p].ref == 0
              else after[p].reserved == start[p].reserved && after[p].ref == start[p].ref
    {
      assert before[p].reserved == start[p].reserved;
    }
  }

  /** A run of pages that are all allocated, or all free. */
  lemma RunWithin(pages: seq<Page>, lo: nat, n: nat, reserved: bool)
    requires n > 0 && Run(lo, n) <= if reserved then ReservedSet(pages) else FreeSet(pages)
    ensures lo + n <= |pages| && forall p :: lo <= p < lo + n ==> pages[p].reserved == reserved
  {
    hide Run;
    RunMembers(lo, n);
    assert lo + n - 1 in Run(lo, n);
    forall p: nat | lo <= p < lo + n
      ensures p < |pages| && pages[p].reserved == reserved
    {
      assert p in Run(lo, n);
    }
  }

  lemma ReleasedIsTakenBack(before: seq<Page>, released: seq<Page>, after: seq<Page>, b: Block)
    requires Releases(before, released, b) && Pages(b) <= ReservedSet(before) && SameUse(released, after)
    ensures TakenBack(before, after, First(b), Pow2(b.order))
  {
    hide First, Pow2, Run, ReservedSet;
    RunWithin(before, First(b), Pow2(b.order), true);
  }

  lemma OwnedIsClean(pages: seq<Page>, live: set<Block>)
    requires Owned(pages, live)
    ensures Clean(pages)
  {
  }

  lemma ClearedIsClean(pages: seq<Page>, p: nat)
    requires Clean(pages) && p < |pages|
    ensures Clean(Cleared(pages, p))
  {
  }

  lemma MarkedIsClean(pages: seq<Page>, p: nat, size: nat)
    requires Clean(pages) && p < |pages|
    ensures Clean(Marked(pages, p, size))
  {
  }

  /** Halfway through a merge or a split: block `b` is free but in no list, and nothing is on record at its head. */
  ghost predicate Floating(lists: seq<seq<nat>>, pages: seq<Page>, b: Block) {
    && WellFormed(lists)
    && FullyMerged(Listed(lists))
    && Tagged(pages, Listed(lists))
    && b !in Listed(lists)
    && Tiling(Listed(lists) + {b}, FreeSet(pages))
    && First(b) < |pages| && pages[First(b)].property == 0
  }

  function Cleared(pages: seq<Page>, p: nat): seq<Page>
    requires p < |pages|
  {
    pages[p := pages[p].(head := false, property := 0)]
  }

  function Marked(pages: seq<Page>, p: nat, size: nat): seq<Page>
    requires p < |pages|
  {
    pages[p := pages[p].(head := true, property := size)]
  }

  lemma FloatingHead(lists: seq<seq<nat>>, pages: seq<Page>, b: Block)
    requires Floating(lists, pages, b)
    ensures First(b) < |pages| && !pages[First(b)].reserved && !pages[First(b)].head && pages[First(b)].property == 0
  {
    FirstCovered(b);
    assert First(b) in FreeSet(pages);
    HeadRecorded(pages, Listed(lists), First(b));
  }

  lemma HeadRecorded(pages: seq<Page>, blocks: set<Block>, p: nat)
    requires Tagged(pages, blocks) && p < |pages|
    ensures pages[p].head ==> pages[p].property > 0
  {
    if pages[p].head {
      var b :| b in blocks && First(b) == p;
    }
  }

  lemma ParentHead(b: Block)
    ensures First(Parent(b)) == if First(Buddy(b)) < First(b) then First(Buddy(b)) else First(b)
  {
    var m, h := b.cell / 2, Pow2(b.order);
    assert First(Parent(b)) == m * (2 * h) == (2 * m) * h;
    if b.cell % 2 == 1 {
      assert b.cell == 2 * m + 1;
      assert First(b) == (2 * m) * h + h;
    } else {
      assert First(Buddy(b)) == (2 * m) * h + h;
    }
  }

  /** Where the merge loop looks for the buddy, and the head of the union. */
  lemma BuddyInList(lists: seq<seq<nat>>, pages: seq<Page>, b: Block)
    requires Floating(lists, pages, b)
    ensures First(b) < |pages| && !pages[First(b)].head && pages[First(b)].property == 0
    ensures Buddy(b) in Listed(lists) <==>
      First(Buddy(b)) < |pages| && b.order <= MAX_ORDER && First(Buddy(b)) in lists[b.order]
    ensures First(Parent(b)) == if First(Buddy(b)) < First(b) then First(Buddy(b)) else First(b)
  {
    ListedByHead(lists, Buddy(b));
    FloatingHead(lists, pages, b);
    ParentHead(b);
  }

  lemma TilingMember(blocks: set<Block>, free: set<nat>, b: Block)
    requires Tiling(blocks, free) && b in blocks
    ensures First(b) in free && b.order <= MAX_ORDER && Within(b, free)
    ensures Disjoint(blocks)
  {
    FirstCovered(b);
  }

  /** One turn of the merge loop: the buddy leaves its list and its head loses its tag. */
  lemma MergeTurn(lists: seq<seq<nat>>, pages: seq<Page>, b: Block, k: nat)
    requires Floating(lists, pages, b) && b.order < MAX_ORDER
    requires k < |lists[b.order]| && lists[b.order][k] == First(Buddy(b))
    ensures First(Buddy(b)) < |pages| && !pages[First(Buddy(b))].reserved
    ensures FreeSet(Cleared(pages, First(Buddy(b)))) == FreeSet(pages)
    ensures Floating(Unlinked(lists, b.order, k), Cleared(pages, First(Buddy(b))), Parent(b))
  {
    hide Tiling, Tagged, WellFormed, FullyMerged, Listed, First;
    var d, listed, free := Buddy(b), Listed(lists), FreeSet(pages);
    ParentHead(b);
    UnlinkRemoves(lists, d, k);
    MergeStaysMerged(listed, d);
    TilingMember(listed + {b}, free, d);
    assert Tagged(Cleared(pages, First(d)), listed - {d}) by {
      Untag(pages, listed, d);
    }
    assert Tiling(listed - {d} + {Parent(b)}, free) && Parent(b) !in listed by {
      MergeBuddies(listed + {b}, free, b);
      assert listed + {b} - {b, d} + {Parent(b)} == listed - {d} + {Parent(b)};
    }
    assert FreeSet(Cleared(pages, First(d))) == free;
  }

  lemma MergeStaysMerged(listed: set<Block>, d: Block)
    requires FullyMerged(listed)
    ensures FullyMerged(listed - {d})
  {
  }

  function LeftHalf(b: Block): Block
    requires b.order > 0
  {
    Block(2 * b.cell, b.order - 1)
  }

  function RightHalf(b: Block): Block
    requires b.order > 0
  {
    Block(2 * b.cell + 1, b.order - 1)
  }

  lemma HalfHeads(b: Block)
    requires b.order > 0
    ensures First(LeftHalf(b)) == First(b)
    ensures First(RightHalf(b)) == First(b) + Pow2(b.order - 1)
  {
    var h := Pow2(b.order - 1);
    assert b.cell * (2 * h) == (2 * b.cell) * h;
  }

  /** One turn of the split loop: the right half is listed and tagged, the left half floats on. */
  lemma SplitTurn(lists: seq<seq<nat>>, pages: seq<Page>, b: Block)
    requires Floating(lists, pages, b) && b.order > 0
    ensures First(RightHalf(b)) < |pages| && !pages[First(RightHalf(b))].reserved
    ensures Floating(Linked(lists, RightHalf(b)), Marked(pages, First(RightHalf(b)), Pow2(b.order - 1)), LeftHalf(b))
    ensures FreeSet(Marked(pages, First(RightHalf(b)), Pow2(b.order - 1))) == FreeSet(pages)
  {
    hide Tiling, Tagged, WellFormed, FullyMerged, Listed, First;
    HalfHeads(b);
    var l, r, listed, free := LeftHalf(b), RightHalf(b), Listed(lists), FreeSet(pages);
    assert Tiling(listed + {r} + {l}, free) && l !in listed + {r} && r !in listed by {
      SplitBlock(listed + {b}, free, b);
      assert listed + {b} - {b} + {l, r} == listed + {r} + {l};
    }
    TilingMember(listed + {r} + {l}, free, r);
    var after := Marked(pages, First(r), Pow2(b.order - 1));
    assert Tagged(after, listed + {r}) by {
      Tag(pages, listed, r);
    }
    assert FreeSet(after) == free;
    SplitStaysMerged(listed, b);
    LinkAdds(lists, r);
  }

  lemma SplitStaysMerged(listed: set<Block>, b: Block)
    requires FullyMerged(listed) && b.order > 0 && LeftHalf(b) !in listed
    ensures FullyMerged(listed + {RightHalf(b)})
  {
    forall c | c in listed + {RightHalf(b)} && c.order < MAX_ORDER
      ensures Buddy(c) !in listed + {RightHalf(b)}
    {
      assert Buddy(Buddy(c)) == c && Buddy(RightHalf(b)) == LeftHalf(b);
    }
  }

  /** A block without free buddy joins the lists. */
  lemma Landing(lists: seq<seq<nat>>, pages: seq<Page>, b: Block)
    requires Floating(lists, pages, b) && (b.order < MAX_ORDER ==> Buddy(b) !in Listed(lists))
    ensures First(b) < |pages| && !pages[First(b)].reserved
    ensures var after := Marked(pages, First(b), Pow2(b.order));
      FreeSet(after) == FreeSet(pages) && Consistent(Linked(lists, b), after, |FreeSet(after)|)
  {
    hide Tiling, Tagged, WellFormed, Listed;
    FloatingHead(lists, pages, b);
    TilingMember(Listed(lists) + {b}, FreeSet(pages), b);
    LinkAdds(lists, b);
    Tag(pages, Listed(lists), b);
    assert FreeSet(Marked(pages, First(b), Pow2(b.order))) == FreeSet(pages);
    forall c | c in Listed(lists) + {b} && c.order < MAX_ORDER
      ensures Buddy(c) !in Listed(lists) + {b}
    {
      assert Buddy(Buddy(c)) == c;
    }
  }

  // ---------------------------------------------------------------- taking blocks out and putting them back

  function HeadBlock(head: nat, order: nat): Block {
    Block(Cell(head, order), order)
  }

  /** Unlinking the first block of a list leaves it floating. */
  lemma TakeFirst(lists: seq<seq<nat>>, pages: seq<Page>, nrFree: int, o: nat)
    requires Consistent(lists, pages, nrFree) && o <= MAX_ORDER && lists[o] != []
    ensures var head := lists[o][0];
      && head < |pages| && First(HeadBlock(head, o)) == head && !pages[head].reserved && nrFree == |FreeSet(pages)|
      && FreeSet(Cleared(pages, head)) == FreeSet(pages)
      && Floating(Unlinked(lists, o, 0), Cleared(pages, head), HeadBlock(head, o))
  {
    hide Tiling, Tagged, FullyMerged;
    var head := lists[o][0];
    var b, listed := HeadBlock(head, o), Listed(lists);
    assert Aligned(head, o);
    UnlinkRemoves(lists, b, 0);
    TilingMember(listed, FreeSet(pages), b);
    Untag(pages, listed, b);
    MergeStaysMerged(listed, b);
    assert listed - {b} + {b} == listed;
    assert FreeSet(Cleared(pages, head)) == FreeSet(pages);
  }

  /** `after` differs from `before` in that the pages of `b` are allocated, its size on record at the head. */
  ghost predicate Grants(before: seq<Page>, after: seq<Page>, b: Block) {
    && |after| == |before|
    && forall p :: 0 <= p < |before| ==>
         after[p] == if First(b) <= p < First(b) + Pow2(b.order)
                     then Page(true, false, if p == First(b) then Pow2(b.order) else before[p].property, 0)
                     else before[p]
  }

  /** `after` differs from `before` in that the pages of `b` are free and nothing is on record for the first. */
  ghost predicate Releases(before: seq<Page>, after: seq<Page>, b: Block) {
    && |after| == |before|
    && forall p :: 0 <= p < |before| ==>
         after[p] == if First(b) <= p < First(b) + Pow2(b.order)
                     then Page(false, false, if p == First(b) then 0 else before[p].property, 0)
                     else before[p]
  }

  lemma GrantSets(before: seq<Page>, after: seq<Page>, b: Block)
    requires Grants(before, after, b) && Pages(b) <= FreeSet(before)
    ensures FreeSet(after) == FreeSet(before) - Pages(b) && ReservedSet(after) == ReservedSet(before) + Pages(b)
    ensures |FreeSet(after)| == |FreeSet(before)| - Pow2(b.order)
    ensures ReservedSet(before) !! Pages(b)
    ensures |after| == |before|
    ensures First(b) < |after| ==> after[First(b)].property == Pow2(b.order)
    ensures forall p :: p in FreeSet(after) ==> p < |after| && after[p] == before[p]
    ensures forall p :: p in ReservedSet(before) ==> p < |after| && after[p] == before[p]
  {
    RunMembers(First(b), Pow2(b.order));
    assert FreeSet(after) == FreeSet(before) - Pages(b);
  }

  lemma ReleaseSets(before: seq<Page>, after: seq<Page>, b: Block)
    requires Releases(before, after, b) && Pages(b) <= ReservedSet(before)
    ensures FreeSet(after) == FreeSet(before) + Pages(b) && ReservedSet(after) == ReservedSet(before) - Pages(b)
    ensures |FreeSet(after)| == |FreeSet(before)| + Pow2(b.order)
    ensures forall p :: p in FreeSet(before) ==> p < |after| && after[p] == before[p]
    ensures forall p :: p in ReservedSet(after) ==> p < |after| && after[p] == before[p]
    ensures FreeSet(before) !! Pages(b)
  {
    RunMembers(First(b), Pow2(b.order));
    assert FreeSet(after) == FreeSet(before) + Pages(b);
  }

  lemma GrantedStaysTagged(listed: set<Block>, before: seq<Page>, after: seq<Page>, b: Block)
    requires Tagged(before, listed) && Grants(before, after, b) && b.order <= MAX_ORDER
    requires First(b) < |before| && before[First(b)].property == 0
    requires forall p :: First(b) <= p < First(b) + Pow2(b.order) && p < |before| ==>
      !before[p].reserved && !before[p].head
    ensures Tagged(after, listed)
  {
  }

  lemma ReleasedStaysTagged(listed: set<Block>, before: seq<Page>, after: seq<Page>, b: Block)
    requires Tagged(before, listed) && Releases(before, after, b)
    requires forall c :: c in listed ==>
      First(c) in FreeSet(before) && First(c) < |after| && after[First(c)] == before[First(c)]
    ensures Tagged(after, listed)
  {
  }

  /** The pages of a floating block are free, and none of them is a head. */
  lemma FloatingPages(lists: seq<seq<nat>>, pages: seq<Page>, b: Block, p: nat)
    requires Floating(lists, pages, b) && First(b) <= p < First(b) + Pow2(b.order)
    ensures p < |pages| && !pages[p].reserved && !pages[p].head
  {
    CellInterval(p, b.order, b.cell);
    assert Covers(b, p) && p in FreeSet(pages);
    if pages[p].head {
      var c :| c in Listed(lists) && First(c) == p;
      FirstCovered(c);
    }
  }

  lemma GrantedStaysConsistent(lists: seq<seq<nat>>, before: seq<Page>, after: seq<Page>, b: Block)
    requires Floating(lists, before, b) && Grants(before, after, b)
    ensures Pages(b) <= FreeSet(before) && FreeSet(after) == FreeSet(before) - Pages(b) && b.order <= MAX_ORDER
    ensures Consistent(lists, after, |FreeSet(before)| - Pow2(b.order))
    ensures |after| == |before| && Unheaded(before, b) && (Clean(before) ==> Clean(after))
    ensures forall p :: 0 <= p < |before| && before[p].reserved ==> after[p] == before[p]
    ensures First(b) < |after| && after[First(b)].property == Pow2(b.order)
    ensures Pow2(b.order) <= |FreeSet(before)|
  {
    hide Tiling, WellFormed, Listed, FullyMerged, Cell, Tagged;
    var listed := Listed(lists);
    forall p: nat | First(b) <= p < First(b) + Pow2(b.order)
      ensures p < |before| && !before[p].reserved && !before[p].head
    {
      FloatingPages(lists, before, b, p);
    }
    TilingMember(listed + {b}, FreeSet(before), b);
    DropBlock(listed + {b}, FreeSet(before), b);
    assert listed + {b} - {b} == listed;
    GrantSets(before, after, b);
    GrantedStaysTagged(listed, before, after, b);
  }

  lemma GrantedIsOwned(before: seq<Page>, after: seq<Page>, live: set<Block>, b: Block)
    requires Owned(before, live) && Grants(before, after, b) && b.order <= MAX_ORDER && First(b) < |before|
    requires Pages(b) <= FreeSet(before) && Unheaded(before, b) && Clean(after)
    ensures Owned(after, live + {b})
  {
    hide Tiling, First, FreeSet, ReservedSet, Grants, Pages, Heads, Unheaded, Clean;
    GrantedHeads(before, after, live, b);
    GrantSets(before, after, b);
    AddBlock(live, ReservedSet(before), b);
    var more := live + {b};
    forall c | c in more
      ensures First(c) < |after| && after[First(c)].property == Pow2(c.order)
    {
      if c != b {
        TilingMember(live, ReservedSet(before), c);
      }
    }
  }

  /** None of the pages of `b` is a head. */
  ghost predicate Unheaded(pages: seq<Page>, b: Block) {
    forall p :: First(b) <= p < First(b) + Pow2(b.order) && p < |pages| ==> !pages[p].head && !pages[p].reserved
  }

  lemma GrantedHeads(before: seq<Page>, after: seq<Page>, live: set<Block>, b: Block)
    requires Grants(before, after, b) && Pages(b) <= FreeSet(before) && Unheaded(before, b) && Clean(before)
    requires forall p :: 0 <= p < |before| && before[p].reserved && before[p].property > 0 ==> Heads(live, p)
    ensures forall p :: 0 <= p < |after| && after[p].reserved && after[p].property > 0 ==> Heads(live + {b}, p)
  {
    RunMembers(First(b), Pow2(b.order));
    var more := live + {b};
    forall p | 0 <= p < |after| && after[p].reserved && after[p].property > 0
      ensures Heads(more, p)
    {
      if p == First(b) {
        assert b in more;
      } else {
        assert Heads(live, p);
        var c :| c in live && First(c) == p;
        assert c in more;
      }
    }
  }

  lemma ReleasedIsFloating(lists: seq<seq<nat>>, before: seq<Page>, after: seq<Page>, nrFree: int, b: Block)
    requires Consistent(lists, before, nrFree) && Releases(before, after, b) && b.order <= MAX_ORDER
    requires Pages(b) <= ReservedSet(before)
    ensures FreeSet(after) == FreeSet(before) + Pages(b) && |FreeSet(after)| == nrFree + Pow2(b.order)
    ensures Floating(lists, after, b)
  {
    hide Tiling, WellFormed, Listed, FullyMerged, First, Tagged, FreeSet, ReservedSet;
    ReleaseSets(before, after, b);
    AddBlock(Listed(lists), FreeSet(before), b);
    forall c | c in Listed(lists)
      ensures First(c) in FreeSet(before)
    {
      TilingMember(Listed(lists), FreeSet(before), c);
    }
    ReleasedStaysTagged(Listed(lists), before, after, b);
    ReleasedHead(before, after, b);
  }

  lemma ReleasedHead(before: seq<Page>, after: seq<Page>, b: Block)
    requires Releases(before, after, b) && Pages(b) <= ReservedSet(before)
    ensures First(b) < |after| && after[First(b)].property == 0
  {
    RunMembers(First(b), Pow2(b.order));
    assert First(b) in Pages(b);
  }

  lemma ReleasedIsDisowned(before: seq<Page>, after: seq<Page>, live: set<Block>, b: Block)
    requires Owned(before, live) && Releases(before, after, b) && b in live
    ensures Owned(after, live - {b})
  {
    hide Tiling;
    DropBlock(live, ReservedSet(before), b);
    ReleaseSets(before, after, b);
    forall c | c in live - {b}
      ensures First(c) < |after| && after[First(c)] == before[First(c)]
    {
      TilingMember(live - {b}, ReservedSet(after), c);
    }
    var rest := live - {b};
    forall p | 0 <= p < |after| && after[p].reserved && after[p].property > 0
      ensures Heads(rest, p)
    {
      assert Heads(live, p);
      var c :| c in live && First(c) == p;
      assert c in rest;
    }
  }

  /** Merging and tagging among the free pages is no concern of the owners. */
  lemma OwnersUnaffected(before: seq<Page>, after: seq<Page>, live: set<Block>)
    requires Owned(before, live) && |after| == |before| && FreeSet(after) == FreeSet(before)
    requires forall p :: 0 <= p < |before| && before[p].reserved ==> after[p] == before[p]
    requires Clean(after)
    ensures Owned(after, live)
  {
    forall p | 0 <= p < |after|
      ensures after[p].reserved <==> before[p].reserved
    {
      assert p in FreeSet(after) <==> p in FreeSet(before);
    }
    assert ReservedSet(after) == ReservedSet(before);
    forall c | c in live
      ensures after[First(c)] == before[First(c)]
    {
      TilingMember(live, ReservedSet(before), c);
    }
  }

  // ---------------------------------------------------------------- the initial carving

  /**
   The first `offset` pages are carved into blocks of order `last` and above, and fewer than 2^last pages
   remain, if `last` is not the top order.
   */
  ghost predicate Carving(lists: seq<seq<nat>>, pages: seq<Page>, offset: nat, last: nat) {
    && offset <= |pages| && last <= MAX_ORDER && Aligned(offset, last)
    && (last < MAX_ORDER ==> |pages| - offset < Pow2(last))
    && WellFormed(lists)
    && Tiling(Listed(lists), Run(0, offset))
    && FullyMerged(Listed(lists))
    && Tagged(pages, Listed(lists))
    && (forall p :: 0 <= p < |pages| ==> !pages[p].reserved) && Clean(pages)
    && (forall b :: b in Listed(lists) ==> b.order >= last)
  }

  /** The blocks follow each other from page lo to page hi. */
  ghost predicate Consecutive(s: seq<Block>, lo: nat, hi: nat) {
    if s == [] then lo == hi
    else
      var b := s[|s| - 1];
      Consecutive(s[..|s| - 1], lo, First(b)) && First(b) + Pow2(b.order) == hi
  }

  /** Orders never rise, and only the top order is repeated. */
  ghost predicate Descending(s: seq<Block>) {
    forall j, k :: 0 <= j < k < |s| ==> s[j].order > s[k].order || s[j].order == s[k].order == MAX_ORDER
  }

  lemma CarveMerged(listed: set<Block>, b: Block)
    requires FullyMerged(listed)
    requires forall c :: c in listed ==> c.order > b.order || (c.order == MAX_ORDER && b.order == MAX_ORDER)
    ensures FullyMerged(listed + {b})
  {
    assert Buddy(b).order == b.order;
  }

  /** An order that fits is aligned, and smaller than the last one unless both are the top order. */
  lemma CarveOrder(offset: nat, rem: nat, last: nat, order: nat)
    requires last <= MAX_ORDER && Aligned(offset, last) && (last < MAX_ORDER ==> rem < Pow2(last))
    requires order <= MAX_ORDER && Pow2(order) <= rem
    ensures order < last || (order == MAX_ORDER && last == MAX_ORDER)
    ensures Aligned(offset, order)
  {
    if last < order {
      Pow2Monotone(last, order);
    }
    AlignedLower(offset, order, last);
  }

  lemma CarveBlock(lists: seq<seq<nat>>, offset: nat, order: nat)
    requires WellFormed(lists) && Aligned(offset, order)
    ensures |lists| == MAX_ORDER + 1
    ensures var b := HeadBlock(offset, order); First(b) == offset && Pages(b) == Run(offset, Pow2(order))
    ensures Aligned(offset + Pow2(order), order)
  {
    Pow2Aligned(order, order);
    AlignedSum(offset, Pow2(order), order);
  }

  /** One turn of the carving loop: the largest block that fits is listed and tagged. */
  lemma CarveTurn(lists: seq<seq<nat>>, pages: seq<Page>, offset: nat, last: nat, order: nat)
    requires Carving(lists, pages, offset, last) && order <= MAX_ORDER && Pow2(order) <= |pages| - offset
    requires order < MAX_ORDER ==> 2 * Pow2(order) > |pages| - offset
    ensures |lists| == MAX_ORDER + 1 && First(HeadBlock(offset, order)) == offset
    ensures order < last || (order == MAX_ORDER && last == MAX_ORDER)
    ensures var b := HeadBlock(offset, order);
      && b !in Listed(lists) && Listed(Linked(lists, b)) == Listed(lists) + {b}
      && Carving(Linked(lists, b), Marked(pages, offset, Pow2(order)), offset + Pow2(order), order)
  {
    hide Tiling, Tagged, WellFormed, Listed, FullyMerged, First, Pages, Aligned, Run, Cell;
    var b, listed, size := HeadBlock(offset, order), Listed(lists), Pow2(order);
    CarveOrder(offset, |pages| - offset, last, order);
    CarveBlock(lists, offset, order);
    RunJoin(0, offset, size);
    AddBlock(listed, Run(0, offset), b);
    assert Tiling(listed + {b}, Run(0, offset + size));
    CarveMerged(listed, b);
    TilingMember(listed + {b}, Run(0, offset + size), b);
    Tag(pages, listed, b);
    LinkAdds(lists, b);
  }

  /** A wholly free block of some order means a listed block of at least that order. */
  lemma {:induction false} FreeRunIsListed(lists: seq<seq<nat>>, pages: seq<Page>, x: Block) returns (o: nat)
    requires WellFormed(lists) && Tiling(Listed(lists), FreeSet(pages)) && FullyMerged(Listed(lists))
    requires x.order <= MAX_ORDER && Within(x, FreeSet(pages))
    ensures x.order <= o <= MAX_ORDER && lists[o] != []
    ensures Pow2(x.order) <= |FreeSet(pages)|
  {
    var b := FreeRunInOneBlock(Listed(lists), FreeSet(pages), x);
    o := b.order;
    ListedByHead(lists, b);
    forall p | p in Pages(x)
      ensures p in FreeSet(pages)
    {
      CoversIsPages(x, p);
    }
    RunMembers(First(x), Pow2(x.order));
    SubsetSize(Pages(x), FreeSet(pages));
  }

  lemma {:induction false} SubsetSize(a: set<nat>, b: set<nat>)
    requires a <= b
    ensures |a| <= |b|
  {
    assert b == a + (b - a);
  }
}
