/**
 Sorted lists of separated runs of units, and how freeing and allocating change them.  The circular
 free list of the SLOB allocator and the address-ordered page lists both stand for such a list.
 */
module FreeRuns {

  /** `len` consecutive units from `start` on. */
  datatype Run = Run(start: nat, len: nat)

  function End(r: Run): nat {
    r.start + r.len
  }

  /** In increasing order, nonempty, and no two overlapping or touching. */
  ghost predicate Separated(runs: seq<Run>) {
    && (forall i :: 0 <= i < |runs| ==> runs[i].len > 0)
    && (forall i, j :: 0 <= i < j < |runs| ==> End(runs[i]) < runs[j].start)
  }

  ghost predicate In(r: Run, u: nat) {
    r.start <= u < End(r)
  }

  ghost predicate Free(runs: seq<Run>, u: nat) {
    exists i :: 0 <= i < |runs| && In(runs[i], u)
  }

  /** The free units determine the runs. */
  lemma {:induction false} RunsAreCanonical(a: seq<Run>, b: seq<Run>)
    requires Separated(a) && Separated(b) && forall u :: Free(a, u) <==> Free(b, u)
    ensures a == b
    decreases |a|
  {
    if a == [] {
      if b != [] {
        assert In(b[0], b[0].start);
        assert Free(b, b[0].start);
        assert false;
      }
    } else {
      assert In(a[0], a[0].start);
      assert Free(b, a[0].start);
      SameFirst(a, b);
      SameFirst(b, a);
      forall u
        ensures Free(a[1..], u) <==> Free(b[1..], u)
      {
        FreeTail(a, u);
        FreeTail(b, u);
      }
      RunsAreCanonical(a[1..], b[1..]);
      assert a == [a[0]] + a[1..] && b == [b[0]] + b[1..];
    }
  }

  lemma SameFirst(a: seq<Run>, b: seq<Run>)
    requires Separated(a) && Separated(b) && a != [] && b != [] && forall u :: Free(a, u) <==> Free(b, u)
    ensures a[0].start <= b[0].start
    ensures a[0].start == b[0].start ==> End(a[0]) >= End(b[0])
  {
    assert In(b[0], b[0].start);
    assert Free(b, b[0].start);
    assert Free(a, b[0].start);
    if a[0].start == b[0].start && End(a[0]) < End(b[0]) {
      assert In(b[0], End(a[0]));
      assert Free(b, End(a[0]));
      assert false;
    }
  }

  lemma FreeTail(a: seq<Run>, u: nat)
    requires Separated(a) && a != []
    ensures Free(a[1..], u) <==> Free(a, u) && !In(a[0], u)
  {
    if Free(a, u) && !In(a[0], u) {
      var i :| 0 <= i < |a| && In(a[i], u);
      assert In(a[1..][i - 1], u);
    }
    if Free(a[1..], u) {
      var i :| 0 <= i < |a[1..]| && In(a[1..][i], u);
      assert In(a[i + 1], u);
    }
  }

  // ---------------------------------------------------------------- elementary changes

  /** In increasing order and disjoint, possibly touching. */
  ghost predicate Sorted(runs: seq<Run>) {
    && (forall i :: 0 <= i < |runs| ==> runs[i].len > 0)
    && (forall i, j :: 0 <= i < j < |runs| ==> End(runs[i]) <= runs[j].start)
  }

  ghost predicate Gap(runs: seq<Run>, i: int) {
    0 <= i && i + 1 < |runs| ==> End(runs[i]) < runs[i + 1].start
  }

  lemma GapsSeparate(runs: seq<Run>)
    requires Sorted(runs) && forall i :: Gap(runs, i)
    ensures Separated(runs)
  {
    forall i, j | 0 <= i < j < |runs|
      ensures End(runs[i]) < runs[j].start
    {
      assert Gap(runs, i);
    }
  }

  ghost function Spliced(runs: seq<Run>, p: nat, b: Run): seq<Run>
    requires p <= |runs|
  {
    runs[..p] + [b] + runs[p..]
  }

  /** Runs q and q + 1 as one. */
  ghost function Joined(runs: seq<Run>, q: nat): seq<Run>
    requires q + 1 < |runs|
  {
    runs[..q] + [Run(runs[q].start, runs[q].len + runs[q + 1].len)] + runs[q + 2..]
  }

  /** Run q as two, the first of n units. */
  ghost function Cut(runs: seq<Run>, q: nat, n: nat): seq<Run>
    requires q < |runs| && n <= runs[q].len
  {
    runs[..q] + [Run(runs[q].start, n), Run(runs[q].start + n, runs[q].len - n)] + runs[q + 1..]
  }

  ghost function Without(runs: seq<Run>, q: nat): seq<Run>
    requires q < |runs|
  {
    runs[..q] + runs[q + 1..]
  }

  lemma SplicedFree(runs: seq<Run>, p: nat, b: Run, u: nat)
    requires p <= |runs|
    ensures Free(Spliced(runs, p, b), u) <==> Free(runs, u) || In(b, u)
  {
    var after := Spliced(runs, p, b);
    assert after[p] == b;
    if Free(runs, u) {
      var i :| 0 <= i < |runs| && In(runs[i], u);
      assert In(after[if i < p then i else i + 1], u);
    }
    if Free(after, u) {
      var j :| 0 <= j < |after| && In(after[j], u);
      if j != p {
        assert In(runs[if j < p then j else j - 1], u);
      }
    }
  }

  lemma JoinedFree(runs: seq<Run>, q: nat, u: nat)
    requires q + 1 < |runs| && End(runs[q]) == runs[q + 1].start
    ensures Free(Joined(runs, q), u) <==> Free(runs, u)
  {
    var after := Joined(runs, q);
    if Free(runs, u) {
      var i :| 0 <= i < |runs| && In(runs[i], u);
      assert In(after[if i <= q then i else i - 1], u);
    }
    if Free(after, u) {
      var j :| 0 <= j < |after| && In(after[j], u);
      assert In(runs[if j < q then j else if j > q then j + 1 else if u < End(runs[q]) then q else q + 1], u);
    }
  }

  lemma CutFree(runs: seq<Run>, q: nat, n: nat, u: nat)
    requires q < |runs| && n <= runs[q].len
    ensures Free(Cut(runs, q, n), u) <==> Free(runs, u)
  {
    var after := Cut(runs, q, n);
    if Free(runs, u) {
      var i :| 0 <= i < |runs| && In(runs[i], u);
      assert In(after[if i < q then i else if i > q then i + 1 else if u < runs[q].start + n then q else q + 1], u);
    }
    if Free(after, u) {
      var j :| 0 <= j < |after| && In(after[j], u);
      assert In(runs[if j <= q then j else j - 1], u);
    }
  }

  lemma WithoutFree(runs: seq<Run>, q: nat, u: nat)
    requires q < |runs| && Sorted(runs)
    ensures Free(Without(runs, q), u) <==> Free(runs, u) && !In(runs[q], u)
  {
    var after := Without(runs, q);
    if Free(runs, u) && !In(runs[q], u) {
      var i :| 0 <= i < |runs| && In(runs[i], u);
      assert In(after[if i < q then i else i - 1], u);
    }
    if Free(after, u) {
      var j :| 0 <= j < |after| && In(after[j], u);
      assert In(runs[if j < q then j else j + 1], u);
    }
  }

  // ---------------------------------------------------------------- the number of free units

  ghost function Total(runs: seq<Run>): nat {
    if runs == [] then 0 else runs[0].len + Total(runs[1..])
  }

  lemma {:induction false} TotalSum(a: seq<Run>, b: seq<Run>)
    ensures Total(a + b) == Total(a) + Total(b)
  {
    if a == [] {
      assert a + b == b;
    } else {
      TotalSum(a[1..], b);
      assert (a + b)[1..] == a[1..] + b;
    }
  }

  lemma TotalOne(r: Run)
    ensures Total([r]) == r.len
  {
    assert [r][1..] == [];
  }

  lemma TotalTwo(r: Run, q: Run)
    ensures Total([r, q]) == r.len + q.len
  {
    assert [r, q][1..] == [q];
    TotalOne(q);
  }

  lemma TotalSpliced(runs: seq<Run>, p: nat, b: Run)
    requires p <= |runs|
    ensures Total(Spliced(runs, p, b)) == Total(runs) + b.len
  {
    hide Total;
    assert runs == runs[..p] + runs[p..];
    TotalSum(runs[..p], runs[p..]);
    TotalSum(runs[..p] + [b], runs[p..]);
    TotalSum(runs[..p], [b]);
    TotalOne(b);
  }

  lemma TotalJoined(runs: seq<Run>, q: nat)
    requires q + 1 < |runs|
    ensures Total(Joined(runs, q)) == Total(runs)
  {
    hide Total;
    var r := Run(runs[q].start, runs[q].len + runs[q + 1].len);
    assert runs == runs[..q] + [runs[q], runs[q + 1]] + runs[q + 2..];
    TotalSum(runs[..q] + [runs[q], runs[q + 1]], runs[q + 2..]);
    TotalSum(runs[..q], [runs[q], runs[q + 1]]);
    TotalTwo(runs[q], runs[q + 1]);
    TotalSum(runs[..q] + [r], runs[q + 2..]);
    TotalSum(runs[..q], [r]);
    TotalOne(r);
  }

  lemma TotalWithout(runs: seq<Run>, q: nat)
    requires q < |runs|
    ensures Total(runs) == Total(Without(runs, q)) + runs[q].len
  {
    hide Total;
    assert runs == runs[..q] + [runs[q]] + runs[q + 1..];
    TotalSum(runs[..q] + [runs[q]], runs[q + 1..]);
    TotalSum(runs[..q], [runs[q]]);
    TotalSum(runs[..q], runs[q + 1..]);
    TotalOne(runs[q]);
  }

  // ---------------------------------------------------------------- freeing

  /** Run b lies between runs[p - 1] and runs[p], touching them at most. */
  ghost predicate Fits(runs: seq<Run>, p: nat, b: Run) {
    && p <= |runs| && b.len > 0
    && (forall i :: 0 <= i < p ==> End(runs[i]) <= b.start)
    && (forall i :: p <= i < |runs| ==> End(b) <= runs[i].start)
  }

  ghost predicate Clear(runs: seq<Run>, b: Run) {
    forall u :: In(b, u) ==> !Free(runs, u)
  }

  /** A run that overlaps none in the list has a place in it. */
  lemma {:induction false} Place(runs: seq<Run>, b: Run) returns (p: nat)
    requires Separated(runs) && b.len > 0 && Clear(runs, b)
    ensures Fits(runs, p, b)
  {
    p := 0;
    while p < |runs| && runs[p].start < b.start
      invariant p <= |runs| && forall i :: 0 <= i < p ==> runs[i].start < b.start
    {
      p := p + 1;
    }
    forall i | 0 <= i < p
      ensures End(runs[i]) <= b.start
    {
      NotIn(runs, b, b.start, i);
    }
    forall i | p <= i < |runs|
      ensures End(b) <= runs[i].start
    {
      NotIn(runs, b, runs[p].start, p);
    }
  }

  lemma NotIn(runs: seq<Run>, b: Run, u: nat, i: nat)
    requires Clear(runs, b) && i < |runs|
    ensures In(b, u) ==> !In(runs[i], u)
  {
    assert In(b, u) ==> !Free(runs, u);
  }

  predicate TouchesBelow(runs: seq<Run>, p: nat, b: Run) {
    0 < p <= |runs| && End(runs[p - 1]) == b.start
  }

  predicate TouchesAbove(runs: seq<Run>, p: nat, b: Run) {
    p < |runs| && End(b) == runs[p].start
  }

  /** The list with b inserted and merged with the neighbour above, if it touches it. */
  ghost function InsertedAbove(runs: seq<Run>, p: nat, b: Run): (r: seq<Run>)
    requires p <= |runs|
    ensures |r| > p && r[..p] == runs[..p] && r[p].start == b.start
  {
    if TouchesAbove(runs, p, b) then Joined(Spliced(runs, p, b), p) else Spliced(runs, p, b)
  }

  /** The list with b inserted and merged with the neighbours it touches. */
  ghost function Inserted(runs: seq<Run>, p: nat, b: Run): seq<Run>
    requires p <= |runs|
  {
    if TouchesBelow(runs, p, b) then Joined(InsertedAbove(runs, p, b), p - 1) else InsertedAbove(runs, p, b)
  }

  lemma InsertedSteps(runs: seq<Run>, p: nat, b: Run)
    requires p <= |runs|
    ensures InsertedAbove(runs, p, b) ==
      if TouchesAbove(runs, p, b) then Joined(Spliced(runs, p, b), p) else Spliced(runs, p, b)
    ensures Inserted(runs, p, b) ==
      if TouchesBelow(runs, p, b) then Joined(InsertedAbove(runs, p, b), p - 1) else InsertedAbove(runs, p, b)
  {
  }

  lemma SplicedIsSorted(runs: seq<Run>, p: nat, b: Run)
    requires Separated(runs) && Fits(runs, p, b)
    ensures Sorted(runs) && Sorted(Spliced(runs, p, b))
  {
  }

  lemma InsertedAboveSeparated(runs: seq<Run>, p: nat, b: Run)
    requires Separated(runs) && Fits(runs, p, b)
    ensures Sorted(InsertedAbove(runs, p, b))
    ensures forall i :: i != p - 1 || !TouchesBelow(runs, p, b) ==> Gap(InsertedAbove(runs, p, b), i)
  {
    var s := Spliced(runs, p, b);
    SplicedIsSorted(runs, p, b);
    assert forall i :: (i != p - 1 || !TouchesBelow(runs, p, b)) && (i != p || !TouchesAbove(runs, p, b)) ==> Gap(s, i);
    if TouchesAbove(runs, p, b) {
      JoinedSorted(s, p);
    }
  }

  lemma JoinedSorted(runs: seq<Run>, q: nat)
    requires Sorted(runs) && q + 1 < |runs| && End(runs[q]) == runs[q + 1].start
    ensures Sorted(Joined(runs, q))
    ensures forall i :: i < q && Gap(runs, i) ==> Gap(Joined(runs, q), i)
    ensures forall i :: i >= q && Gap(runs, i + 1) ==> Gap(Joined(runs, q), i)
  {
  }

  lemma InsertedSeparated(runs: seq<Run>, p: nat, b: Run)
    requires Separated(runs) && Fits(runs, p, b)
    ensures Separated(Inserted(runs, p, b))
  {
    hide Joined, Spliced, InsertedAbove, Gap, Sorted, Separated;
    InsertedAboveSeparated(runs, p, b);
    if TouchesBelow(runs, p, b) {
      JoinedSorted(InsertedAbove(runs, p, b), p - 1);
    }
    GapsSeparate(Inserted(runs, p, b));
  }

  lemma InsertedFree(runs: seq<Run>, p: nat, b: Run, u: nat)
    requires Separated(runs) && Fits(runs, p, b)
    ensures Free(Inserted(runs, p, b), u) <==> Free(runs, u) || In(b, u)
  {
    hide Free;
    var s, t := Spliced(runs, p, b), InsertedAbove(runs, p, b);
    SplicedFree(runs, p, b, u);
    if TouchesAbove(runs, p, b) {
      JoinedFree(s, p, u);
    }
    if TouchesBelow(runs, p, b) {
      JoinedFree(t, p - 1, u);
    }
  }

  // ---------------------------------------------------------------- allocating

  /** The list after `skip` units at the start of runs[k] are cut off as a run of their own. */
  ghost function Skipped(runs: seq<Run>, k: nat, skip: nat): seq<Run>
    requires k < |runs| && skip <= runs[k].len
  {
    if skip > 0 then Cut(runs, k, skip) else runs
  }

  /** The list after the first `take` units of runs[k] are gone. */
  ghost function Shrunk(runs: seq<Run>, k: nat, take: nat): seq<Run>
    requires k < |runs| && take <= runs[k].len
  {
    if take < runs[k].len then Without(Cut(runs, k, take), k) else Without(runs, k)
  }

  /** The list after `take` units, `skip` units into runs[k], are gone from it. */
  ghost function Carved(runs: seq<Run>, k: nat, skip: nat, take: nat): seq<Run>
    requires k < |runs| && skip < runs[k].len && skip + take <= runs[k].len
  {
    Shrunk(Skipped(runs, k, skip), if skip > 0 then k + 1 else k, take)
  }

  lemma CutSorted(runs: seq<Run>, q: nat, n: nat)
    requires Sorted(runs) && q < |runs| && 0 < n < runs[q].len
    ensures Sorted(Cut(runs, q, n))
    ensures forall i :: i != q && Gap(runs, if i < q then i else i - 1) ==> Gap(Cut(runs, q, n), i)
  {
    hide Cut;
    var after := Cut(runs, q, n);
    forall i, j | 0 <= i < j < |after|
      ensures End(after[i]) <= after[j].start
    {
      CutAt(runs, q, n, i);
      CutAt(runs, q, n, j);
    }
    forall i | 0 <= i < |after|
      ensures after[i].len > 0
    {
      CutAt(runs, q, n, i);
    }
    forall i | i != q && Gap(runs, if i < q then i else i - 1)
      ensures Gap(after, i)
    {
      if 0 <= i && i + 1 < |after| {
        CutAt(runs, q, n, i);
        CutAt(runs, q, n, i + 1);
      }
    }
  }

  lemma CutAt(runs: seq<Run>, q: nat, n: nat, i: nat)
    requires q < |runs| && n <= runs[q].len
    ensures |Cut(runs, q, n)| == |runs| + 1
    ensures i < q ==> Cut(runs, q, n)[i] == runs[i]
    ensures i == q ==> Cut(runs, q, n)[i] == Run(runs[q].start, n)
    ensures i == q + 1 ==> Cut(runs, q, n)[i] == Run(runs[q].start + n, runs[q].len - n)
    ensures q + 1 < i <= |runs| ==> Cut(runs, q, n)[i] == runs[i - 1]
  {
  }

  lemma ShrunkSeparated(runs: seq<Run>, q: nat, n: nat)
    requires Sorted(runs) && q < |runs| && 0 < n <= runs[q].len && forall i :: i != q - 1 ==> Gap(runs, i)
    ensures Separated(Shrunk(runs, q, n))
  {
    hide Gap, Separated, Sorted;
    if n < runs[q].len {
      assert Shrunk(runs, q, n) == runs[q := Run(runs[q].start + n, runs[q].len - n)];
      FrontCut(runs, q, n);
    } else {
      BlockGone(runs, q);
    }
    GapsSeparate(Shrunk(runs, q, n));
  }

  lemma FrontCut(runs: seq<Run>, q: nat, n: nat)
    requires Sorted(runs) && q < |runs| && 0 < n < runs[q].len && forall i :: i != q - 1 ==> Gap(runs, i)
    ensures var after := runs[q := Run(runs[q].start + n, runs[q].len - n)]; Sorted(after) && forall i :: Gap(after, i)
  {
    var after := runs[q := Run(runs[q].start + n, runs[q].len - n)];
    forall i
      ensures Gap(after, i)
    {
      assert i != q - 1 ==> Gap(runs, i);
      assert 0 <= i < q ==> End(runs[i]) <= runs[q].start;
    }
  }

  lemma BlockGone(runs: seq<Run>, q: nat)
    requires Sorted(runs) && q < |runs| && forall i :: i != q - 1 ==> Gap(runs, i)
    ensures Sorted(Without(runs, q)) && forall i :: Gap(Without(runs, q), i)
  {
    forall i
      ensures Gap(Without(runs, q), i)
    {
      assert i < q - 1 ==> Gap(runs, i);
      assert i >= q ==> Gap(runs, i + 1);
      assert 0 <= i < q ==> End(runs[i]) <= runs[q].start;
      assert q + 1 < |runs| ==> End(runs[q]) <= runs[q + 1].start;
    }
  }

  lemma CarvedSeparated(runs: seq<Run>, k: nat, skip: nat, take: nat)
    requires Separated(runs) && k < |runs| && skip + take <= runs[k].len && take > 0
    ensures Separated(Carved(runs, k, skip, take))
  {
    assert Sorted(runs) && forall i :: Gap(runs, i);
    if skip > 0 {
      CutSorted(runs, k, skip);
    }
    ShrunkSeparated(Skipped(runs, k, skip), if skip > 0 then k + 1 else k, take);
  }

  lemma CarvedFree(runs: seq<Run>, k: nat, skip: nat, take: nat, u: nat)
    requires Separated(runs) && k < |runs| && skip + take <= runs[k].len && take > 0
    ensures Free(Carved(runs, k, skip, take), u) <==> Free(runs, u) && !In(Run(runs[k].start + skip, take), u)
  {
    hide Free;
    var s, q := Skipped(runs, k, skip), if skip > 0 then k + 1 else k;
    assert Sorted(runs);
    if skip > 0 {
      CutFree(runs, k, skip, u);
      CutSorted(runs, k, skip);
    }
    assert s[q].start == runs[k].start + skip;
    if take < s[q].len {
      CutFree(s, q, take, u);
      CutSorted(s, q, take);
      WithoutFree(Cut(s, q, take), q, u);
    } else {
      WithoutFree(s, q, u);
    }
  }

  // ---------------------------------------------------------------- the circular list in memory

  function Around(runs: seq<Run>, i: nat): nat
    requires i < |runs|
  {
    runs[if i + 1 < |runs| then i + 1 else 0].start
  }

  /** The header of run i in memory tells its length and its successor on the circle. */
  ghost predicate Linked(runs: seq<Run>, i: nat, units: map<nat, int>, next: map<nat, nat>)
    requires i < |runs|
  {
    var a := runs[i].start;
    a in units && units[a] == runs[i].len && a in next && next[a] == Around(runs, i)
  }

  /** The headers in memory spell out the runs, in a circle. */
  ghost predicate Links(runs: seq<Run>, units: map<nat, int>, next: map<nat, nat>) {
    forall i :: 0 <= i < |runs| ==> Linked(runs, i, units, next)
  }

  /** The index before p on the circle. */
  function Before(runs: seq<Run>, p: nat): (r: nat)
    requires |runs| > 0 && p <= |runs|
    ensures r < |runs|
  {
    if p > 0 then p - 1 else |runs| - 1
  }

  lemma StartsDiffer(runs: seq<Run>, i: nat, j: nat)
    requires Sorted(runs) && i < |runs| && j < |runs|
    ensures runs[i].start == runs[j].start <==> i == j
  {
  }

  lemma SplicedLinks(runs: seq<Run>, p: nat, b: Run, units: map<nat, int>, next: map<nat, nat>)
    requires p <= |runs| && Links(runs, units, next) && Sorted(runs) && |runs| > 0 && Fits(runs, p, b)
    ensures var cur := runs[Before(runs, p)].start;
      && cur in next
      && Links(Spliced(runs, p, b), units[b.start := b.len], next[b.start := next[cur]][cur := b.start])
  {
    hide Spliced, Around, Sorted, Fits, Before;
    var c, after := Before(runs, p), Spliced(runs, p, b);
    assert Linked(runs, c, units, next);
    var u, n := units[b.start := b.len], next[b.start := next[runs[c].start]][runs[c].start := b.start];
    SplicedShape(runs, p, b);
    FitsElsewhere(runs, p, b, c);
    forall j | 0 <= j < |after|
      ensures Linked(after, j, u, n)
    {
      if j != p {
        var i := if j < p then j else j - 1;
        SplicedPlace(runs, p, b, i);
        assert Linked(runs, i, units, next);
        FitsElsewhere(runs, p, b, i);
        StartsDiffer(runs, i, c);
      }
    }
  }

  lemma SplicedShape(runs: seq<Run>, p: nat, b: Run)
    requires p <= |runs| && |runs| > 0
    ensures |Spliced(runs, p, b)| == |runs| + 1 && Spliced(runs, p, b)[p] == b
    ensures Around(Spliced(runs, p, b), p) == Around(runs, Before(runs, p))
  {
  }

  /** Where block i ends up, and what comes after it there. */
  lemma SplicedPlace(runs: seq<Run>, p: nat, b: Run, i: nat)
    requires p <= |runs| && i < |runs|
    ensures var j := if i < p then i else i + 1;
      && j < |Spliced(runs, p, b)| && Spliced(runs, p, b)[j] == runs[i]
      && Around(Spliced(runs, p, b), j) == if i == Before(runs, p) then b.start else Around(runs, i)
  {
  }

  lemma FitsElsewhere(runs: seq<Run>, p: nat, b: Run, i: nat)
    requires Sorted(runs) && Fits(runs, p, b) && i < |runs|
    ensures runs[i].start != b.start
  {
    assert runs[i].len > 0;
  }

  lemma JoinedLinks(runs: seq<Run>, q: nat, units: map<nat, int>, next: map<nat, nat>)
    requires Links(runs, units, next) && Sorted(runs) && q + 1 < |runs|
    ensures var a, c := runs[q].start, runs[q + 1].start;
      && a in units && c in units && c in next
      && Links(Joined(runs, q), units[a := units[a] + units[c]], next[a := next[c]])
  {
    hide Joined, Around, Sorted;
    var after, a, c := Joined(runs, q), runs[q].start, runs[q + 1].start;
    assert Linked(runs, q, units, next) && Linked(runs, q + 1, units, next);
    var u, n := units[a := units[a] + units[c]], next[a := next[c]];
    forall j | 0 <= j < |after|
      ensures Linked(after, j, u, n)
    {
      JoinedPlace(runs, q, j);
      var i := if j <= q then j else j + 1;
      assert Linked(runs, i, units, next);
      StartsDiffer(runs, i, q);
    }
  }

  /** What stands at index j after joining, and what follows it. */
  lemma JoinedPlace(runs: seq<Run>, q: nat, j: nat)
    requires q + 1 < |runs|
    ensures |Joined(runs, q)| == |runs| - 1
    ensures j < |runs| - 1 ==>
      && Joined(runs, q)[j].start == runs[if j <= q then j else j + 1].start
      && Joined(runs, q)[j].len ==
        (if j == q then runs[q].len + runs[q + 1].len else runs[if j < q then j else j + 1].len)
      && Around(Joined(runs, q), j) == Around(runs, if j < q then j else j + 1)
  {
  }

  lemma CutLinks(runs: seq<Run>, q: nat, n: nat, units: map<nat, int>, next: map<nat, nat>)
    requires Links(runs, units, next) && Sorted(runs) && q < |runs| && 0 < n < runs[q].len
    ensures var a, c := runs[q].start, runs[q].start + n;
      && a in units && a in next
      && Links(Cut(runs, q, n), units[c := units[a] - n][a := n], next[c := next[a]][a := c])
  {
    hide Cut, Around, Sorted;
    var after, a, c := Cut(runs, q, n), runs[q].start, runs[q].start + n;
    assert Linked(runs, q, units, next);
    var u, x := units[c := units[a] - n][a := n], next[c := next[a]][a := c];
    CutShape(runs, q, n);
    forall j | 0 <= j < |after|
      ensures Linked(after, j, u, x)
    {
      if j != q && j != q + 1 {
        var i := if j <= q then j else j - 1;
        CutPlace(runs, q, n, i);
        assert Linked(runs, i, units, next);
        StartsDiffer(runs, i, q);
        NotInside(runs, q, n, i);
      }
    }
  }

  lemma CutShape(runs: seq<Run>, q: nat, n: nat)
    requires q < |runs| && n <= runs[q].len
    ensures var after := Cut(runs, q, n);
      && |after| == |runs| + 1 && after[q] == Run(runs[q].start, n)
      && after[q + 1] == Run(runs[q].start + n, runs[q].len - n)
      && Around(after, q) == runs[q].start + n && Around(after, q + 1) == Around(runs, q)
  {
  }

  lemma CutPlace(runs: seq<Run>, q: nat, n: nat, i: nat)
    requires q < |runs| && n <= runs[q].len && i < |runs| && i != q
    ensures var j := if i < q then i else i + 1;
      j < |Cut(runs, q, n)| && Cut(runs, q, n)[j] == runs[i] && Around(Cut(runs, q, n), j) == Around(runs, i)
  {
  }

  lemma NotInside(runs: seq<Run>, q: nat, n: nat, i: nat)
    requires Sorted(runs) && q < |runs| && 0 < n < runs[q].len && i < |runs|
    ensures runs[i].start != runs[q].start + n
  {
  }

  lemma WithoutLinks(runs: seq<Run>, q: nat, units: map<nat, int>, next: map<nat, nat>)
    requires Links(runs, units, next) && Sorted(runs) && q < |runs| && |runs| > 1
    ensures runs[q].start in next
    ensures Links(Without(runs, q), units, next[runs[Before(runs, q)].start := next[runs[q].start]])
  {
    var after, p := Without(runs, q), Before(runs, q);
    assert Linked(runs, q, units, next) && Linked(runs, p, units, next);
    var x := next[runs[p].start := next[runs[q].start]];
    forall j | 0 <= j < |after|
      ensures Linked(after, j, units, x)
    {
      hide Sorted;
      var i := if j < q then j else j + 1;
      assert after[j] == runs[i] && Linked(runs, i, units, next);
      StartsDiffer(runs, i, p);
    }
  }
}
