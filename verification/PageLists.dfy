/**
 The address-ordered free lists of lab2/kern/mm/default_pmm.c (first fit) and
 lab2/kern/mm/best_fit_pmm.c, on the doubly linked lists of lab2/libs/list.h.  A link is named by the
 page it sits in; `head` is the list head, `next` and `prev` are the two fields of the links.
 */
module PageLists {
  import opened Words
  import opened FreeRuns

  // ---------------------------------------------------------------- circular doubly linked lists

  ghost function LinkOf(head: nat, s: seq<nat>, i: int): nat {
    if 0 <= i < |s| then s[i] else head
  }

  ghost predicate Distinct(head: nat, s: seq<nat>) {
    && (forall i :: 0 <= i < |s| ==> s[i] != head)
    && (forall i, j :: 0 <= i < j < |s| ==> s[i] != s[j])
  }

  ghost predicate Hooked(next: map<nat, nat>, prev: map<nat, nat>, head: nat, s: seq<nat>, i: nat) {
    var a, b := LinkOf(head, s, i - 1), LinkOf(head, s, i);
    a in next && next[a] == b && b in prev && prev[b] == a
  }

  /** From the head, `next` runs through s and back, and `prev` the other way round. */
  ghost predicate DList(next: map<nat, nat>, prev: map<nat, nat>, head: nat, s: seq<nat>) {
    Distinct(head, s) && forall i :: 0 <= i <= |s| ==> Hooked(next, prev, head, s, i)
  }

  ghost function InsertAt(s: seq<nat>, i: nat, x: nat): seq<nat>
    requires i <= |s|
  {
    s[..i] + [x] + s[i..]
  }

  ghost function RemoveAt(s: seq<nat>, i: nat): seq<nat>
    requires i < |s|
  {
    s[..i] + s[i + 1..]
  }

  /** __list_add(elm, before, after) */
  ghost function AddNext(next: map<nat, nat>, elm: nat, before: nat, after: nat): map<nat, nat> {
    next[before := elm][elm := after]
  }

  ghost function AddPrev(prev: map<nat, nat>, elm: nat, before: nat, after: nat): map<nat, nat> {
    prev[after := elm][elm := before]
  }

  lemma DistinctInsert(head: nat, s: seq<nat>, i: nat, x: nat)
    requires Distinct(head, s) && i <= |s| && x !in s && x != head
    ensures Distinct(head, InsertAt(s, i, x))
  {
  }

  lemma DistinctRemove(head: nat, s: seq<nat>, i: nat)
    requires Distinct(head, s) && i < |s|
    ensures Distinct(head, RemoveAt(s, i)) && s[i] !in RemoveAt(s, i)
  {
  }

  lemma LinksDiffer(head: nat, s: seq<nat>, i: int, j: int)
    requires Distinct(head, s) && -1 <= i <= |s| && -1 <= j <= |s|
    ensures LinkOf(head, s, i) == LinkOf(head, s, j) <==> i == j || {i, j} == {-1, |s|}
  {
  }

  /** Adding a new link between two neighbours. */
  lemma AddKeeps(next: map<nat, nat>, prev: map<nat, nat>, head: nat, s: seq<nat>, i: nat, x: nat)
    requires DList(next, prev, head, s) && i <= |s| && x !in s && x != head
    ensures var a, b := LinkOf(head, s, i - 1), LinkOf(head, s, i);
      DList(AddNext(next, x, a, b), AddPrev(prev, x, a, b), head, InsertAt(s, i, x))
  {
    var a, b := LinkOf(head, s, i - 1), LinkOf(head, s, i);
    var n, p, t := AddNext(next, x, a, b), AddPrev(prev, x, a, b), InsertAt(s, i, x);
    DistinctInsert(head, s, i, x);
    assert Hooked(next, prev, head, s, i);
    forall j | 0 <= j <= |t|
      ensures Hooked(n, p, head, t, j)
    {
      hide Distinct;
      if j < i {
        assert Hooked(next, prev, head, s, j);
        LinksDiffer(head, s, j - 1, i - 1);
        LinksDiffer(head, s, j, i);
      } else if j > i + 1 {
        assert Hooked(next, prev, head, s, j - 1);
        LinksDiffer(head, s, j - 2, i - 1);
        LinksDiffer(head, s, j - 1, i);
      }
    }
  }

  /** list_del: the neighbours of a link are hooked to each other. */
  lemma DelKeeps(next: map<nat, nat>, prev: map<nat, nat>, head: nat, s: seq<nat>, i: nat)
    requires DList(next, prev, head, s) && i < |s|
    ensures var a, b := LinkOf(head, s, i - 1), LinkOf(head, s, i + 1);
      s[i] in next && next[s[i]] == b && s[i] in prev && prev[s[i]] == a
      && DList(next[a := b], prev[b := a], head, RemoveAt(s, i))
  {
    var a, b := LinkOf(head, s, i - 1), LinkOf(head, s, i + 1);
    var n, p, t := next[a := b], prev[b := a], RemoveAt(s, i);
    DistinctRemove(head, s, i);
    assert Hooked(next, prev, head, s, i) && Hooked(next, prev, head, s, i + 1);
    forall j | 0 <= j <= |t|
      ensures Hooked(n, p, head, t, j)
    {
      hide Distinct;
      if j < i {
        assert Hooked(next, prev, head, s, j);
        LinksDiffer(head, s, j - 1, i - 1);
        LinksDiffer(head, s, j, i + 1);
      } else if j > i {
        assert Hooked(next, prev, head, s, j + 1);
        LinksDiffer(head, s, j, i - 1);
        LinksDiffer(head, s, j + 1, i + 1);
      }
    }
  }

  // ---------------------------------------------------------------- insertion in address order

  predicate Ascending(s: seq<nat>) {
    forall i, j :: 0 <= i < j < |s| ==> s[i] < s[j]
  }

  /** x belongs between s[p - 1] and s[p]. */
  predicate PlaceIn(s: seq<nat>, p: nat, x: nat) {
    p <= |s| && (forall i :: 0 <= i < p ==> s[i] < x) && forall i :: p <= i < |s| ==> x < s[i]
  }

  /**
   The insertion loop has no way out after inserting at the end: it meets the new link and inserts it behind
   itself.
   */
  ghost function TailNext(next: map<nat, nat>, head: nat, last: nat, x: nat): map<nat, nat> {
    AddNext(AddNext(next, x, last, head), x, x, head)
  }

  ghost function TailPrev(prev: map<nat, nat>, head: nat, last: nat, x: nat): map<nat, nat> {
    AddPrev(AddPrev(prev, x, last, head), x, x, head)
  }

  /**
   Then the new link is its own predecessor, and the links are no list any more, of whatever pages in whatever
   order.
   */
  lemma TailBreaks(next: map<nat, nat>, prev: map<nat, nat>, head: nat, s: seq<nat>, x: nat, t: seq<nat>)
    requires DList(next, prev, head, s) && s != [] && x !in s && x != head
    ensures var last := s[|s| - 1];
      TailPrev(prev, head, last, x)[x] == x
      && !DList(TailNext(next, head, last, x), TailPrev(prev, head, last, x), head, t)
  {
    var last := s[|s| - 1];
    var n, p := TailNext(next, head, last, x), TailPrev(prev, head, last, x);
    if x in t {
      var i :| 0 <= i < |t| && t[i] == x;
      if Distinct(head, t) {
        LinksDiffer(head, t, i, i - 1);
        assert !Hooked(n, p, head, t, i);
      }
    } else {
      assert !Hooked(n, p, head, t, |t|);
    }
  }

  class Links {
    const head: nat
    var next: map<nat, nat>
    var prev: map<nat, nat>

    constructor (head: nat)
      ensures this.head == head && DList(next, prev, head, [])
    {
      this.head := head;
      next, prev := map[head := head], map[head := head];
      new;
      assert Hooked(next, prev, head, [], 0);
    }

    /** __list_add */
    method Add(elm: nat, before: nat, after: nat)
      modifies this
      ensures next == AddNext(old(next), elm, before, after) && prev == AddPrev(old(prev), elm, before, after)
    {
      prev := prev[after := elm];
      next := next[before := elm];
      next := next[elm := after];
      prev := prev[elm := before];
    }

    /** list_del */
    method Del(elm: nat, ghost s: seq<nat>, ghost i: nat)
      requires DList(next, prev, head, s) && i < |s| && s[i] == elm
      modifies this
      ensures DList(next, prev, head, RemoveAt(s, i))
    {
      hide DList;
      DelKeeps(next, prev, head, s, i);
      var before, after := prev[elm], next[elm];
      next := next[before := after];
      prev := prev[after := before];
    }

    /** list_add: behind a link of the list, or the head */
    method AddAfter(elm: nat, before: nat, ghost s: seq<nat>, ghost i: nat)
      requires DList(next, prev, head, s) && i <= |s| && before == LinkOf(head, s, i - 1) && elm !in s && elm != head
      modifies this
      ensures DList(next, prev, head, InsertAt(s, i, elm))
    {
      AddKeeps(next, prev, head, s, i, elm);
      assert Hooked(next, prev, head, s, i);
      Add(elm, before, next[before]);
    }

    /**
     The insertion loop of the page allocators.  It keeps the list a list exactly if the list was empty or the new
     link does not belong at its end.
     */
    method InsertSorted(base: nat, ghost s: seq<nat>) returns (ghost p: nat)
      requires DList(next, prev, head, s) && Ascending(s) && base !in s && base != head
      modifies this
      ensures PlaceIn(s, p, base)
      ensures DList(next, prev, head, InsertAt(s, p, base)) <==> s == [] || p < |s|
      ensures s != [] && p == |s| ==> next == TailNext(old(next), head, s[|s| - 1], base)
      ensures s != [] && p == |s| ==> prev == TailPrev(old(prev), head, s[|s| - 1], base)
    {
      hide DList, AddNext, AddPrev;
      Ends(next, prev, head, s);
      if next[head] == head {
        AddAfter(base, head, s, 0);
        return 0;
      }
      var le := head;
      ghost var i: nat, phase: nat := 0, 0;
      ghost var last := s[|s| - 1];
      while true
        invariant i <= |s| && phase <= 2 && DList(old(next), old(prev), head, s)
        invariant phase == 0 ==> i < |s| && le == LinkOf(head, s, i - 1) && next == old(next) && prev == old(prev)
        invariant forall j :: 0 <= j < i ==> s[j] < base
        invariant phase > 0 ==> i == |s|
        invariant phase == 1 ==> le == last && next == AddNext(old(next), base, last, head)
        invariant phase == 1 ==> prev == AddPrev(old(prev), base, last, head)
        invariant phase == 2 ==> le == base && next == TailNext(old(next), head, last, base)
        invariant phase == 2 ==> prev == TailPrev(old(prev), head, last, base)
        decreases |s| - i, 2 - phase
      {
        if phase == 0 {
          HookAt(next, prev, head, s, i);
        }
        TailHooks(old(next), old(prev), head, last, base);
        le := next[le];
        if le == head {
          TailBreaks(old(next), old(prev), head, s, base, InsertAt(s, |s|, base));
          return |s|;
        }
        if phase == 0 {
          HookAt(next, prev, head, s, i + 1);
        }
        if base < le {
          AddKeeps(next, prev, head, s, i, base);
          Add(base, prev[le], le);
          return i;
        } else if next[le] == head {
          Add(base, le, next[le]);
          phase := phase + 1;
        }
        i := if i < |s| then i + 1 else i;
      }
    }
  }

  lemma Ends(next: map<nat, nat>, prev: map<nat, nat>, head: nat, s: seq<nat>)
    requires DList(next, prev, head, s)
    ensures head in next && (next[head] == head <==> s == [])
  {
    assert Hooked(next, prev, head, s, 0);
  }

  lemma HookAt(next: map<nat, nat>, prev: map<nat, nat>, head: nat, s: seq<nat>, i: nat)
    requires DList(next, prev, head, s) && i <= |s|
    ensures var a, b := LinkOf(head, s, i - 1), LinkOf(head, s, i);
      a in next && next[a] == b && b in prev && prev[b] == a && (b == head <==> i == |s|)
  {
    assert Hooked(next, prev, head, s, i);
  }

  lemma TailHooks(next: map<nat, nat>, prev: map<nat, nat>, head: nat, last: nat, x: nat)
    requires x != last
    ensures last in AddNext(next, x, last, head) && x in AddNext(next, x, last, head)
    ensures x in TailNext(next, head, last, x)
    ensures AddNext(next, x, last, head)[last] == x && AddNext(next, x, last, head)[x] == head
    ensures TailNext(next, head, last, x)[x] == head
  {
  }

  // ---------------------------------------------------------------- the free list of a page allocator

  ghost function Starts(runs: seq<Run>): (s: seq<nat>)
    ensures |s| == |runs| && forall i :: 0 <= i < |s| ==> s[i] == runs[i].start
  {
    seq(|runs|, i requires 0 <= i < |runs| => runs[i].start)
  }

  ghost predicate IsStart(runs: seq<Run>, a: nat) {
    exists i :: 0 <= i < |runs| && runs[i].start == a
  }

  /** `property` holds the length of every block, and PG_property is set exactly on the heads of blocks. */
  ghost predicate Tagged(runs: seq<Run>, property: map<nat, nat>, heads: set<nat>) {
    && (forall i :: 0 <= i < |runs| ==> runs[i].start in property && property[runs[i].start] == runs[i].len)
    && (forall a :: a in heads <==> IsStart(runs, a))
  }

  ghost predicate Below(runs: seq<Run>, npage: nat) {
    forall i :: 0 <= i < |runs| ==> End(runs[i]) <= npage
  }

  lemma SortedStarts(runs: seq<Run>)
    requires Sorted(runs)
    ensures Ascending(Starts(runs))
  {
  }

  lemma StartsJoined(runs: seq<Run>, q: nat)
    requires q + 1 < |runs|
    ensures Starts(Joined(runs, q)) == RemoveAt(Starts(runs), q + 1)
  {
  }

  lemma StartsWithout(runs: seq<Run>, q: nat)
    requires q < |runs|
    ensures Starts(Without(runs, q)) == RemoveAt(Starts(runs), q)
  {
  }

  lemma StartsSpliced(runs: seq<Run>, p: nat, b: Run)
    requires p <= |runs|
    ensures Starts(Spliced(runs, p, b)) == InsertAt(Starts(runs), p, b.start)
  {
  }

  lemma TaggedSpliced(runs: seq<Run>, p: nat, b: Run, property: map<nat, nat>, heads: set<nat>)
    requires Tagged(runs, property, heads) && p <= |runs| && !IsStart(runs, b.start)
    ensures Tagged(Spliced(runs, p, b), property[b.start := b.len], heads + {b.start})
  {
    var after := Spliced(runs, p, b);
    assert after[p] == b;
    forall a
      ensures IsStart(after, a) <==> IsStart(runs, a) || a == b.start
    {
      if IsStart(runs, a) {
        var i :| 0 <= i < |runs| && runs[i].start == a;
        assert after[if i < p then i else i + 1].start == a;
      }
    }
  }

  lemma JoinedParts(runs: seq<Run>, q: nat)
    requires q + 1 < |runs|
    ensures var after := Joined(runs, q);
      && |after| == |runs| - 1 && after[q].len == runs[q].len + runs[q + 1].len
      && (forall i :: 0 <= i < |after| ==> after[i].start == runs[if i <= q then i else i + 1].start)
      && (forall i :: 0 <= i < |after| && i != q ==> after[i].len == runs[if i <= q then i else i + 1].len)
  {
  }

  lemma WithoutParts(runs: seq<Run>, q: nat)
    requires q < |runs|
    ensures |Without(runs, q)| == |runs| - 1
    ensures forall i :: 0 <= i < |Without(runs, q)| ==> Without(runs, q)[i] == runs[if i < q then i else i + 1]
  {
  }

  lemma TaggedJoined(runs: seq<Run>, q: nat, property: map<nat, nat>, heads: set<nat>)
    requires Tagged(runs, property, heads) && Sorted(runs) && q + 1 < |runs|
    ensures var a, c := runs[q].start, runs[q + 1].start;
      a in property && c in property && Tagged(Joined(runs, q), property[a := property[a] + property[c]], heads - {c})
  {
    hide Sorted, Joined;
    var after, c := Joined(runs, q), runs[q + 1].start;
    JoinedParts(runs, q);
    forall a
      ensures IsStart(after, a) <==> IsStart(runs, a) && a != c
    {
      if IsStart(runs, a) && a != c {
        var i :| 0 <= i < |runs| && runs[i].start == a;
        assert after[if i <= q then i else i - 1].start == a;
      }
      if IsStart(after, a) {
        var i :| 0 <= i < |after| && after[i].start == a;
        StartsDiffer(runs, if i <= q then i else i + 1, q + 1);
      }
    }
    forall i | 0 <= i < |after|
      ensures i != q ==> after[i].start != runs[q].start
    {
      StartsDiffer(runs, if i <= q then i else i + 1, q);
    }
  }

  lemma TaggedWithout(runs: seq<Run>, q: nat, property: map<nat, nat>, heads: set<nat>)
    requires Tagged(runs, property, heads) && Sorted(runs) && q < |runs|
    ensures Tagged(Without(runs, q), property, heads - {runs[q].start})
  {
    hide Sorted, Without;
    var after, c := Without(runs, q), runs[q].start;
    WithoutParts(runs, q);
    forall a
      ensures IsStart(after, a) <==> IsStart(runs, a) && a != c
    {
      if IsStart(runs, a) && a != c {
        var i :| 0 <= i < |runs| && runs[i].start == a;
        assert after[if i < q then i else i - 1].start == a;
      }
      if IsStart(after, a) {
        var i :| 0 <= i < |after| && after[i].start == a;
        StartsDiffer(runs, if i < q then i else i + 1, q);
      }
    }
  }

  /** Taking from the front is removing the block and putting the rest, if any, in its place. */
  lemma ShrunkIs(runs: seq<Run>, k: nat, n: nat)
    requires k < |runs| && 0 < n <= runs[k].len
    ensures Shrunk(runs, k, n) ==
      if n < runs[k].len then Spliced(Without(runs, k), k, Run(runs[k].start + n, runs[k].len - n))
      else Without(runs, k)
  {
  }

  /** Merging below first and then above comes to the same as the other way round. */
  lemma InsertedFromBelow(runs: seq<Run>, p: nat, b: Run)
    requires p <= |runs|
    ensures var lo, hi := TouchesBelow(runs, p, b), TouchesAbove(runs, p, b);
      var mid := if lo then Joined(Spliced(runs, p, b), p - 1) else Spliced(runs, p, b);
      var q := if lo then p - 1 else p;
      && (hi ==> q + 1 < |mid|)
      && Inserted(runs, p, b) == if hi then Joined(mid, q) else mid
  {
    hide Joined;
    InsertedSteps(runs, p, b);
    if TouchesBelow(runs, p, b) && TouchesAbove(runs, p, b) {
      JoinTwice(Spliced(runs, p, b), p - 1);
    } else if TouchesBelow(runs, p, b) {
      JoinedParts(Spliced(runs, p, b), p - 1);
    }
  }

  /** Three blocks become one in either order. */
  lemma JoinTwice(runs: seq<Run>, q: nat)
    requires q + 2 < |runs|
    ensures |Joined(runs, q)| == |Joined(runs, q + 1)| == |runs| - 1
    ensures Joined(Joined(runs, q), q) == Joined(Joined(runs, q + 1), q)
  {
    var r := Run(runs[q].start, runs[q].len + runs[q + 1].len + runs[q + 2].len);
    assert Joined(Joined(runs, q), q) == runs[..q] + [r] + runs[q + 3..];
    assert Joined(Joined(runs, q + 1), q) == runs[..q] + [r] + runs[q + 3..];
  }

  /** The list may be walked: links, sizes and flags agree with the blocks. */
  ghost predicate Listed(runs: seq<Run>, next: map<nat, nat>, prev: map<nat, nat>, property: map<nat, nat>,
      heads: set<nat>, npage: nat) {
    && Sorted(runs) && Below(runs, npage)
    && DList(next, prev, npage, Starts(runs)) && Tagged(runs, property, heads)
  }

  /** The loop bodies that look for a block; `least` tells best fit from first fit. */
  ghost predicate Chosen(runs: seq<Run>, n: nat, least: bool, k: nat) {
    && k < |runs| && runs[k].len >= n
    && (if least
        then forall i :: 0 <= i < |runs| && runs[i].len >= n ==>
          runs[k].len <= runs[i].len && (i < k ==> runs[k].len < runs[i].len)
        else forall i :: 0 <= i < k ==> runs[i].len < n)
  }

  lemma {:induction false} LenBelowTotal(runs: seq<Run>, i: nat)
    requires i < |runs|
    ensures runs[i].len <= Total(runs)
  {
    if i > 0 {
      LenBelowTotal(runs[1..], i - 1);
    }
  }

  lemma StartAt(runs: seq<Run>, next: map<nat, nat>, prev: map<nat, nat>, property: map<nat, nat>, heads: set<nat>,
      npage: nat, i: nat)
    requires Listed(runs, next, prev, property, heads, npage) && i <= |runs|
    ensures var a, b := LinkOf(npage, Starts(runs), i - 1), LinkOf(npage, Starts(runs), i);
      && a in next && next[a] == b && b in prev && prev[b] == a && (b == npage <==> i == |runs|)
      && (a == npage <==> i == 0)
    ensures i < |runs| ==> runs[i].start in property && property[runs[i].start] == runs[i].len > 0
    ensures i < |runs| ==> runs[i].start < npage && runs[i].start in heads
  {
    HookAt(next, prev, npage, Starts(runs), i);
    assert i < |runs| ==> IsStart(runs, runs[i].start);
  }

  // ---------------------------------------------------------------- what the steps do to the blocks

  lemma TakeFacts(runs: seq<Run>, property: map<nat, nat>, heads: set<nat>, npage: nat, k: nat, n: nat)
    requires Separated(runs) && Below(runs, npage) && Tagged(runs, property, heads) && k < |runs|
    requires 0 < n <= runs[k].len
    ensures var page, after, s := runs[k].start, Shrunk(runs, k, n), Starts(runs);
      && Separated(after) && Sorted(after) && Below(after, npage) && Total(after) + n == Total(runs)
      && (if n < runs[k].len
          then Starts(after) == InsertAt(RemoveAt(s, k), k, page + n) && page + n !in RemoveAt(s, k) && page + n < npage
               && Tagged(after, property[page + n := runs[k].len - n], heads + {page + n} - {page})
          else Starts(after) == RemoveAt(s, k) && Tagged(after, property, heads - {page}))
  {
    hide Tagged, Separated, Total, Below, Shrunk, Spliced, Without, Sorted, InsertAt, RemoveAt, IsStart, Gap;
    var page, rest := runs[k].start, Run(runs[k].start + n, runs[k].len - n);
    var without := Without(runs, k);
    SeparatedIsSorted(runs);
    ShrunkIs(runs, k, n);
    ShrunkSeparated(runs, k, n);
    SeparatedIsSorted(Shrunk(runs, k, n));
    ShrunkBelow(runs, k, n, npage);
    StartsWithout(runs, k);
    TaggedWithout(runs, k, property, heads);
    TotalWithout(runs, k);
    WithoutParts(runs, k);
    if n < runs[k].len {
      StartsSpliced(without, k, rest);
      NoStartInside(runs, k, n);
      TaggedSpliced(without, k, rest, property, heads - {page});
      TotalSpliced(without, k, rest);
      assert heads - {page} + {page + n} == heads + {page + n} - {page};
    }
  }

  lemma SeparatedIsSorted(runs: seq<Run>)
    requires Separated(runs)
    ensures Sorted(runs) && forall i :: Gap(runs, i)
  {
  }

  lemma ShrunkBelow(runs: seq<Run>, k: nat, n: nat, npage: nat)
    requires Below(runs, npage) && k < |runs| && 0 < n <= runs[k].len
    ensures Below(Shrunk(runs, k, n), npage) && (n < runs[k].len ==> runs[k].start + n < npage)
  {
    ShrunkIs(runs, k, n);
  }

  lemma NoStartInside(runs: seq<Run>, k: nat, n: nat)
    requires Sorted(runs) && k < |runs| && 0 < n < runs[k].len
    ensures !IsStart(Without(runs, k), runs[k].start + n) && runs[k].start + n !in RemoveAt(Starts(runs), k)
  {
    var x := runs[k].start + n;
    forall i | 0 <= i < |runs|
      ensures runs[i].start != x
    {
      NotInside(runs, k, n, i);
    }
  }

  lemma AbsorbFacts(runs: seq<Run>, property: map<nat, nat>, heads: set<nat>, npage: nat, q: nat)
    requires Sorted(runs) && Below(runs, npage) && Tagged(runs, property, heads) && q + 1 < |runs|
    requires End(runs[q]) == runs[q + 1].start
    ensures var a, c, after := runs[q].start, runs[q + 1].start, Joined(runs, q);
      && Sorted(after) && Below(after, npage) && Starts(after) == RemoveAt(Starts(runs), q + 1)
      && a in property && c in property && Tagged(after, property[a := property[a] + property[c]], heads - {c})
  {
    hide Tagged, Sorted;
    JoinedSorted(runs, q);
    StartsJoined(runs, q);
    TaggedJoined(runs, q, property, heads);
  }

  lemma FreeFacts(runs: seq<Run>, property: map<nat, nat>, heads: set<nat>, npage: nat, p: nat, b: Run)
    requires Separated(runs) && Tagged(runs, property, heads) && Below(runs, npage)
    requires Fits(runs, p, b) && Clear(runs, b) && End(b) <= npage
    ensures p <= |runs|
    ensures var after, s := Spliced(runs, p, b), Starts(runs);
      && (forall u :: In(b, u) ==> u !in heads) && b.start !in s && b.start != npage && Ascending(s)
      && PlaceIn(s, p, b.start)
      && Sorted(after) && Below(after, npage) && Starts(after) == InsertAt(s, p, b.start)
      && Tagged(after, property[b.start := b.len], heads + {b.start})
      && Total(Inserted(runs, p, b)) == Total(runs) + b.len
  {
    hide Separated, Total, Below, Spliced, Inserted, InsertedAbove, Joined, Free, Fits, Tagged;
    FitsIs(runs, p, b);
    SeparatedIsSorted(runs);
    SortedStarts(runs);
    SplicedIsSorted(runs, p, b);
    SplicedBelow(runs, p, b, npage);
    StartsSpliced(runs, p, b);
    ClearOfHeads(runs, property, heads, b);
    TaggedSpliced(runs, p, b, property, heads);
    TotalInserted(runs, p, b);
  }

  lemma FitsIs(runs: seq<Run>, p: nat, b: Run)
    requires Separated(runs) && Fits(runs, p, b)
    ensures p <= |runs| && b.len > 0 && PlaceIn(Starts(runs), p, b.start) && b.start !in Starts(runs)
    ensures !IsStart(runs, b.start)
  {
    assert forall i :: 0 <= i < |runs| ==> runs[i].len > 0;
  }

  lemma SplicedIsSorted(runs: seq<Run>, p: nat, b: Run)
    requires Separated(runs) && Fits(runs, p, b)
    ensures Sorted(Spliced(runs, p, b))
  {
  }

  lemma SplicedBelow(runs: seq<Run>, p: nat, b: Run, npage: nat)
    requires Below(runs, npage) && p <= |runs| && End(b) <= npage
    ensures Below(Spliced(runs, p, b), npage)
  {
  }

  lemma ClearOfHeads(runs: seq<Run>, property: map<nat, nat>, heads: set<nat>, b: Run)
    requires Separated(runs) && Tagged(runs, property, heads) && Clear(runs, b)
    ensures forall u :: In(b, u) ==> u !in heads
  {
    forall i | 0 <= i < |runs|
      ensures !In(b, runs[i].start)
    {
      assert In(runs[i], runs[i].start);
      assert Free(runs, runs[i].start);
    }
  }

  lemma TotalInserted(runs: seq<Run>, p: nat, b: Run)
    requires p <= |runs|
    ensures Total(Inserted(runs, p, b)) == Total(runs) + b.len
  {
    hide Total, Spliced, Joined;
    InsertedSteps(runs, p, b);
    TotalSpliced(runs, p, b);
    SplicedCount(runs, p, b);
    if TouchesAbove(runs, p, b) {
      TotalJoined(Spliced(runs, p, b), p);
    }
    if TouchesBelow(runs, p, b) {
      TotalJoined(InsertedAbove(runs, p, b), p - 1);
    }
  }

  lemma SplicedCount(runs: seq<Run>, p: nat, b: Run)
    requires p <= |runs|
    ensures |Spliced(runs, p, b)| == |runs| + 1
  {
  }

  /** The place is the end exactly if all blocks lie below. */
  lemma TailPlace(runs: seq<Run>, p: nat, x: nat)
    requires PlaceIn(Starts(runs), p, x)
    ensures runs != [] ==> (runs[|runs| - 1].start < x <==> p == |runs|)
  {
    if runs != [] {
      BelowPlace(Starts(runs), p, x, |runs| - 1);
    }
  }

  /** What the insertion loop leaves behind when it inserts at the end. */
  ghost predicate Broken(next: map<nat, nat>, prev: map<nat, nat>, head: nat, x: nat) {
    && x in prev && prev[x] == x && x in next && next[x] == head && x != head
    && forall t :: !DList(next, prev, head, t)
  }

  lemma TailIsBroken(next: map<nat, nat>, prev: map<nat, nat>, head: nat, s: seq<nat>, x: nat)
    requires DList(next, prev, head, s) && s != [] && x !in s && x != head
    ensures Broken(TailNext(next, head, s[|s| - 1], x), TailPrev(prev, head, s[|s| - 1], x), head, x)
  {
    hide DList;
    var n, p := TailNext(next, head, s[|s| - 1], x), TailPrev(prev, head, s[|s| - 1], x);
    forall t
      ensures !DList(n, p, head, t)
    {
      TailBreaks(next, prev, head, s, x, t);
    }
  }

  lemma PlaceIsUnique(s: seq<nat>, p: nat, q: nat, x: nat)
    requires PlaceIn(s, p, x) && PlaceIn(s, q, x)
    ensures p == q
  {
    BelowPlace(s, p, x, if p < q then p else q);
    BelowPlace(s, q, x, if p < q then p else q);
  }

  lemma BelowPlace(s: seq<nat>, p: nat, x: nat, i: nat)
    requires PlaceIn(s, p, x)
    ensures i < |s| ==> (s[i] < x <==> i < p)
  {
  }

  /** Where the freed block and its neighbours are, before and after it merges with the one below. */
  lemma NeighbourFacts(runs: seq<Run>, p: nat, b: Run)
    requires p <= |runs|
    ensures var lo, hi := TouchesBelow(runs, p, b), TouchesAbove(runs, p, b);
      var s := Spliced(runs, p, b);
      && |s| == |runs| + 1 && s[p] == b && (p > 0 ==> s[p - 1] == runs[p - 1])
      && (lo <==> p > 0 && End(s[p - 1]) == b.start)
      && var mid, q := if lo then Joined(s, p - 1) else s, if lo then p - 1 else p;
         q < |mid| && mid[q].start == (if lo then runs[p - 1].start else b.start)
         && (hi <==> q + 1 < |mid| && End(mid[q]) == mid[q + 1].start)
         && Inserted(runs, p, b) == if hi then Joined(mid, q) else mid
  {
    InsertedFromBelow(runs, p, b);
  }

  /** The reference counts of pages base, ..., end - 1 have become 0, and the others are as they were. */
  ghost predicate Unreferenced(was: map<nat, nat>, ref: map<nat, nat>, base: nat, end: nat) {
    && (forall u :: u in was ==> u in ref)
    && (forall u: nat :: base <= u < end ==> u in ref && ref[u] == 0)
    && (forall u :: u in ref && !(base <= u < end) ==> u in was && ref[u] == was[u])
  }

  class PageArea {
    const npage: nat
    const links: Links
    var property: map<nat, nat>
    var heads: set<nat>
    var reserved: set<nat>
    var ref: map<nat, nat>
    var nrFree: nat
    ghost var runs: seq<Run>

    /** Disjoint blocks in address order, none touching the next, listed and tagged, and counted by nr_free. */
    ghost predicate Valid()
      reads this, links
    {
      && links.head == npage && Separated(runs) && nrFree == Total(runs)
      && Listed(runs, links.next, links.prev, property, heads, npage)
    }

    constructor (npage: nat, reserved: set<nat>, ref: map<nat, nat>)
      ensures Valid() && fresh(links) && this.npage == npage && runs == [] && this.reserved == reserved
      ensures this.ref == ref
    {
      this.npage := npage;
      links := new Links(npage);
      this.reserved, this.ref := reserved, ref;
      property, heads, nrFree, runs := map[], {}, 0, [];
      new;
      assert Starts([]) == [];
    }

    /**
     The common end of the two allocation functions: the front of the block goes, the rest takes its place in
     the list.
     */
    method Take(page: nat, n: nat, ghost k: nat)
      requires Valid() && k < |runs| && page == runs[k].start && 0 < n <= runs[k].len
      modifies this`property, this`heads, this`nrFree, this`runs, links
      ensures Valid() && runs == Shrunk(old(runs), k, n) && nrFree == old(nrFree) - n
    {
      hide DList, Tagged, Separated, Total, Below, Shrunk, Sorted;
      ghost var s := Starts(runs);
      StartAt(runs, links.next, links.prev, property, heads, npage, k);
      TakeFacts(runs, property, heads, npage, k, n);
      var before := links.prev[page];
      links.Del(page, s, k);
      if property[page] > n {
        var p := page + n;
        property := property[p := property[page] - n];
        heads := heads + {p};
        links.AddAfter(p, before, RemoveAt(s, k), k);
      }
      nrFree := nrFree - n;
      heads := heads - {page};
      runs := Shrunk(runs, k, n);
    }

    /** default_alloc_pages: the first block that is large enough. */
    method DefaultAllocPages(n: nat) returns (r: Option<nat>, ghost k: nat)
      requires Valid() && n > 0
      modifies this`property, this`heads, this`nrFree, this`runs, links
      ensures Valid()
      ensures r == None <==> forall i :: 0 <= i < |old(runs)| ==> old(runs)[i].len < n
      ensures r == None ==> runs == old(runs)
      ensures r.Some? ==> Chosen(old(runs), n, false, k) && r.value == old(runs)[k].start
      ensures r.Some? ==> runs == Shrunk(old(runs), k, n)
    {
      hide DList, Tagged, Separated, Total, Below, Listed, Shrunk, Sorted;
      k := 0;
      if n > nrFree {
        NoneIsLarge(runs, n);
        return None, k;
      }
      var le := npage;
      while true
        invariant k <= |runs| && le == LinkOf(npage, Starts(runs), k - 1) && Valid() && runs == old(runs)
        invariant forall i :: 0 <= i < k ==> runs[i].len < n
        decreases |runs| - k
      {
        StartAt(runs, links.next, links.prev, property, heads, npage, k);
        le := links.next[le];
        if le == npage {
          return None, k;
        }
        if property[le] >= n {
          break;
        }
        k := k + 1;
      }
      Take(le, n, k);
      r := Some(le);
    }

    /** best_fit_alloc_pages: the first of the smallest blocks that are large enough. */
    method BestFitAllocPages(n: nat) returns (r: Option<nat>, ghost k: nat)
      requires Valid() && n > 0
      modifies this`property, this`heads, this`nrFree, this`runs, links
      ensures Valid()
      ensures r == None <==> forall i :: 0 <= i < |old(runs)| ==> old(runs)[i].len < n
      ensures r == None ==> runs == old(runs)
      ensures r.Some? ==> Chosen(old(runs), n, true, k) && r.value == old(runs)[k].start
      ensures r.Some? ==> runs == Shrunk(old(runs), k, n)
    {
      hide DList, Tagged, Separated, Total, Below, Listed, Shrunk, Sorted;
      k := 0;
      if n > nrFree {
        NoneIsLarge(runs, n);
        return None, k;
      }
      var le, minSize, page := npage, nrFree + 1, npage;
      ghost var i: nat := 0;
      while true
        invariant i <= |runs| && le == LinkOf(npage, Starts(runs), i - 1) && Valid() && runs == old(runs)
        invariant page == npage ==> minSize == nrFree + 1 && forall j :: 0 <= j < i ==> runs[j].len < n
        invariant page != npage ==> Chosen(runs[..i], n, true, k) && page == runs[k].start && minSize == runs[k].len
        decreases |runs| - i
      {
        StartAt(runs, links.next, links.prev, property, heads, npage, i);
        le := links.next[le];
        if le == npage {
          break;
        }
        LenBelowTotal(runs, i);
        ghost var seen := runs[..i + 1];
        assert seen[..i] == runs[..i] && seen[i] == runs[i];
        if property[le] >= n && property[le] < minSize {
          minSize, page, k := property[le], le, i;
        }
        i := i + 1;
      }
      assert runs[..i] == runs;
      r := None;
      if page != npage {
        Take(page, n, k);
        r := Some(page);
      }
    }

    /** Two neighbours that touch become one block. */
    method Absorb(a: nat, c: nat, ghost q: nat)
      requires Listed(runs, links.next, links.prev, property, heads, npage) && links.head == npage
      requires q + 1 < |runs| && a == runs[q].start && c == runs[q + 1].start && End(runs[q]) == c
      modifies this`property, this`heads, this`runs, links
      ensures Listed(runs, links.next, links.prev, property, heads, npage) && runs == Joined(old(runs), q)
    {
      hide DList, Tagged, Below, Joined, Sorted;
      StartAt(runs, links.next, links.prev, property, heads, npage, q);
      StartAt(runs, links.next, links.prev, property, heads, npage, q + 1);
      AbsorbFacts(runs, property, heads, npage, q);
      property := property[a := property[a] + property[c]];
      heads := heads - {c};
      links.Del(c, Starts(runs), q + 1);
      runs := Joined(runs, q);
    }

    /** The block at `base` goes to the end of a list that is not empty. */
    ghost predicate AtTail(base: nat)
      reads this
    {
      runs != [] && runs[|runs| - 1].start < base
    }

    /**
     default_free_pages and best_fit_free_pages.  The block is inserted in its place and merges with the free blocks it
     touches; but if its place is the end of a nonempty list, nothing merges and the links are no list any more.
     */
    method FreePages(base: nat, n: nat) returns (ghost p: nat)
      requires Valid() && n > 0 && base + n <= npage
      requires Clear(runs, Run(base, n)) && forall u :: base <= u < base + n ==> u !in reserved
      modifies this`property, this`heads, this`reserved, this`ref, this`nrFree, this`runs, links
      ensures nrFree == old(nrFree) + n && Fits(old(runs), p, Run(base, n))
      ensures reserved == old(reserved) && Unreferenced(old(ref), ref, base, base + n)
      ensures !old(AtTail(base)) ==> Valid() && runs == Inserted(old(runs), p, Run(base, n))
      ensures old(AtTail(base)) ==> runs == old(runs) && property == old(property)[base := n]
      ensures old(AtTail(base)) ==> heads == old(heads) + {base}
      ensures old(AtTail(base)) ==> Broken(links.next, links.prev, npage, base)
    {
      hide Listed, Separated, Total, Inserted, Fits, Free, Clear, Spliced, DList, TailNext, TailPrev;
      ghost var b := Run(base, n);
      ghost var tail := AtTail(base);
      p := Place(runs, b);
      FitsIs(runs, p, b);
      TotalInserted(runs, p, b);
      InsertedSeparated(runs, p, b);
      Insert(base, n, p);
      nrFree := nrFree + n;
      Merge(base, old(runs), p, b, tail);
    }

    /**
     default_init_memmap: the pages become one free block in its place, which does not merge: the state is valid again
     exactly if they touch no free block.  At the end of a nonempty list the links break as in FreePages.
     */
    method InitMemmap(base: nat, n: nat) returns (ghost p: nat)
      requires Valid() && n > 0 && base + n <= npage && Clear(runs, Run(base, n))
      requires forall u :: base <= u < base + n ==> u in reserved
      modifies this`property, this`heads, this`reserved, this`ref, this`nrFree, this`runs, links
      ensures nrFree == old(nrFree) + n && Fits(old(runs), p, Run(base, n))
      ensures forall u :: u in reserved <==> u in old(reserved) && !(base <= u < base + n)
      ensures Unreferenced(old(ref), ref, base, base + n)
      ensures !old(AtTail(base)) ==>
        Listed(runs, links.next, links.prev, property, heads, npage) && runs == Spliced(old(runs), p, Run(base, n))
      ensures !old(AtTail(base)) ==>
        (Valid() <==> !TouchesBelow(old(runs), p, Run(base, n)) && !TouchesAbove(old(runs), p, Run(base, n)))
      ensures old(AtTail(base)) ==> Broken(links.next, links.prev, npage, base)
    {
      hide Listed, Separated, Total, Inserted, Fits, Free, Clear, Spliced, DList;
      ghost var b := Run(base, n);
      p := Place(runs, b);
      FitsIs(runs, p, b);
      var q := base;
      while q != base + n
        invariant base <= q <= base + n && reserved == old(reserved) - (set u | u in old(reserved) && base <= u < q)
        invariant forall u :: u in old(property) && !(base <= u < q) ==>
          u in property && property[u] == old(property[u])
        invariant links.next == old(links.next) && links.prev == old(links.prev) && heads == old(heads)
        invariant runs == old(runs) && nrFree == old(nrFree) && Unreferenced(old(ref), ref, base, q)
        decreases base + n - q
      {
        reserved := reserved - {q};
        property := property[q := 0];
        ref := ref[q := 0];
        q := q + 1;
      }
      ListedKept(runs, links.next, links.prev, old(property), property, heads, npage, b);
      TotalSpliced(runs, p, b);
      SplicedSeparated(runs, p, b);
      Insert(base, n, p);
      nrFree := nrFree + n;
    }

    /** The block joins the list as it is, or breaks it. */
    method Insert(base: nat, n: nat, ghost p: nat)
      requires Valid() && base + n <= npage && Fits(runs, p, Run(base, n)) && Clear(runs, Run(base, n)) && p <= |runs|
      requires forall u :: base <= u < base + n ==> u !in reserved
      modifies this`property, this`heads, this`reserved, this`ref, this`runs, links
      ensures property == old(property)[base := n] && heads == old(heads) + {base} && reserved == old(reserved)
      ensures Unreferenced(old(ref), ref, base, base + n)
      ensures !old(AtTail(base)) ==>
        Listed(runs, links.next, links.prev, property, heads, npage) && runs == Spliced(old(runs), p, Run(base, n))
      ensures old(AtTail(base)) ==> runs == old(runs) && Broken(links.next, links.prev, npage, base)
    {
      hide DList, Tagged, Below, Joined, Spliced, Separated, Total, Inserted, Fits, Free, Clear, Sorted, Ascending,
        PlaceIn, TailNext, TailPrev;
      ghost var b := Run(base, n);
      FreeFacts(runs, property, heads, npage, p, b);
      assert forall u :: base <= u < base + n ==> In(b, u);
      ClearFlags(base, n);
      property := property[base := n];
      heads := heads + {base};
      ghost var at := links.InsertSorted(base, Starts(runs));
      PlaceIsUnique(Starts(runs), p, at, base);
      TailPlace(runs, p, base);
      if AtTail(base) {
        TailIsBroken(old(links.next), old(links.prev), npage, Starts(runs), base);
      } else {
        runs := Spliced(runs, p, b);
      }
    }

    /**
     The block just inserted merges with the neighbours it touches, the one below first; behind itself it
     finds none.
     */
    method Merge(base: nat, ghost before: seq<Run>, ghost p: nat, ghost b: Run, ghost tail: bool)
      requires links.head == npage && b.start == base && base in property && property[base] == b.len > 0
      requires !tail ==> Listed(runs, links.next, links.prev, property, heads, npage)
      requires !tail ==> p <= |before| && runs == Spliced(before, p, b)
      requires tail ==> Broken(links.next, links.prev, npage, base)
      modifies this`property, this`heads, this`runs, links
      ensures !tail ==> Listed(runs, links.next, links.prev, property, heads, npage) && runs == Inserted(before, p, b)
      ensures tail ==> runs == old(runs) && property == old(property) && heads == old(heads)
      ensures tail ==> Broken(links.next, links.prev, npage, base)
    {
      hide Listed, Joined, Spliced, Inserted, DList;
      var first := base;
      ghost var q := p;
      if !tail {
        NeighbourFacts(before, p, b);
        StartAt(runs, links.next, links.prev, property, heads, npage, p);
      }
      var le := links.prev[base];
      if le != npage {
        if !tail {
          StartAt(runs, links.next, links.prev, property, heads, npage, p - 1);
        }
        if le + property[le] == base {
          Absorb(le, base, p - 1);
          first, q := le, p - 1;
        }
      }
      if !tail {
        StartAt(runs, links.next, links.prev, property, heads, npage, q);
        StartAt(runs, links.next, links.prev, property, heads, npage, q + 1);
      }
      le := links.next[first];
      if le != npage && first + property[first] == le {
        Absorb(first, le, q);
      }
    }

    /** `p->flags = 0` for every page of the block; the assertion there is the precondition. */
    method ClearFlags(base: nat, n: nat)
      requires forall u :: base <= u < base + n ==> u !in heads && u !in reserved
      modifies this`heads, this`reserved, this`ref
      ensures heads == old(heads) && reserved == old(reserved)
      ensures Unreferenced(old(ref), ref, base, base + n)
    {
      var p := base;
      while p != base + n
        invariant base <= p <= base + n && heads == old(heads) && reserved == old(reserved)
        invariant Unreferenced(old(ref), ref, base, p)
        decreases base + n - p
      {
        heads, reserved, ref := heads - {p}, reserved - {p}, ref[p := 0];
        p := p + 1;
      }
    }
  }

  lemma NoneIsLarge(runs: seq<Run>, n: nat)
    requires n > Total(runs)
    ensures forall i :: 0 <= i < |runs| ==> runs[i].len < n
  {
    forall i | 0 <= i < |runs|
      ensures runs[i].len < n
    {
      LenBelowTotal(runs, i);
    }
  }

  /** What is written to pages that are not free does not matter. */
  lemma ListedKept(runs: seq<Run>, next: map<nat, nat>, prev: map<nat, nat>, property: map<nat, nat>,
      other: map<nat, nat>, heads: set<nat>, npage: nat, b: Run)
    requires Listed(runs, next, prev, property, heads, npage) && Clear(runs, b)
    requires forall u :: u in property && !In(b, u) ==> u in other && other[u] == property[u]
    ensures Listed(runs, next, prev, other, heads, npage)
  {
    forall i | 0 <= i < |runs|
      ensures !In(b, runs[i].start)
    {
      assert In(runs[i], runs[i].start);
      assert Free(runs, runs[i].start);
    }
  }

  /** Unmerged, the blocks stay apart exactly if the new one touches none. */
  lemma SplicedSeparated(runs: seq<Run>, p: nat, b: Run)
    requires Separated(runs) && Fits(runs, p, b)
    ensures p <= |runs| && (Separated(Spliced(runs, p, b)) <==> !TouchesBelow(runs, p, b) && !TouchesAbove(runs, p, b))
  {
    var s := Spliced(runs, p, b);
    assert s[p] == b && (p > 0 ==> s[p - 1] == runs[p - 1]) && (p < |runs| ==> s[p + 1] == runs[p]);
    if !TouchesBelow(runs, p, b) && !TouchesAbove(runs, p, b) {
      InsertedSteps(runs, p, b);
      InsertedSeparated(runs, p, b);
    }
  }

  // ---------------------------------------------------------------- allocation and freeing together

  /** Freeing what was taken from the front of a block restores the blocks. */
  lemma FreeUndoesTake(runs: seq<Run>, k: nat, n: nat, p: nat)
    requires Separated(runs) && k < |runs| && 0 < n <= runs[k].len && Fits(Shrunk(runs, k, n), p, Run(runs[k].start, n))
    ensures p <= |Shrunk(runs, k, n)| && Inserted(Shrunk(runs, k, n), p, Run(runs[k].start, n)) == runs
  {
    hide Free, Inserted, Separated, Shrunk;
    var b, after := Run(runs[k].start, n), Shrunk(runs, k, n);
    SeparatedIsSorted(runs);
    ShrunkSeparated(runs, k, n);
    InsertedSeparated(after, p, b);
    forall u
      ensures Free(Inserted(after, p, b), u) <==> Free(runs, u)
    {
      InsertedFree(after, p, b, u);
      CarvedFree(runs, k, 0, n, u);
      FreeInBlock(runs, k, u);
      assert In(b, u) ==> In(runs[k], u);
    }
    RunsAreCanonical(Inserted(after, p, b), runs);
  }

  lemma FreeInBlock(runs: seq<Run>, k: nat, u: nat)
    requires k < |runs|
    ensures In(runs[k], u) ==> Free(runs, u)
  {
  }

  /**
   But freeing goes through the broken end of the insertion loop exactly if the block taken was the whole of
   the last one, and not the only one.
   */
  lemma FreeIsAtTail(runs: seq<Run>, k: nat, n: nat)
    requires Separated(runs) && k < |runs| && 0 < n <= runs[k].len
    ensures var after := Shrunk(runs, k, n);
      after != [] && after[|after| - 1].start < runs[k].start <==> k == |runs| - 1 && n == runs[k].len && |runs| > 1
  {
    SeparatedIsSorted(runs);
    ShrunkIs(runs, k, n);
    var last := |runs| - 1;
    assert k < last ==> End(runs[k]) < runs[last].start;
    assert last > 0 && k == last ==> End(runs[last - 1]) < runs[last].start;
  }
}
