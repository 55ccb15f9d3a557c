/**
 What skew-heap merging and removal promise: heap order is kept, so the root is a least item, and
 any run of merges, insertions and root removals pays an amortised logarithmic price.
 */
module SkewHeapLaws {
  import opened SkewHeap

  // ---------------------------------------------------------------- heap order

  ghost predicate LessEq<T>(comp: (T, T) -> int, x: T, y: T) {
    comp(y, x) != -1
  }

  /** What the queue needs of `comp`: answering -1 is the strict part of a total preorder. */
  ghost predicate TotalPreorder<T(!new)>(comp: (T, T) -> int) {
    && (forall x, y :: LessEq(comp, x, y) || LessEq(comp, y, x))
    && (forall x, y, z :: LessEq(comp, x, y) && LessEq(comp, y, z) ==> LessEq(comp, x, z))
  }

  ghost predicate HeapOrdered<T>(t: Tree<T>, comp: (T, T) -> int) {
    t.Bin? ==>
      && HeapOrdered(t.left, comp) && HeapOrdered(t.right, comp)
      && (t.left.Bin? ==> LessEq(comp, t.node.item, t.left.node.item))
      && (t.right.Bin? ==> LessEq(comp, t.node.item, t.right.node.item))
  }

  /** The root of a heap is least among all its members. */
  lemma {:induction false} RootIsLeast<T(!new)>(t: Tree<T>, comp: (T, T) -> int, n: Node<T>)
    requires TotalPreorder(comp) && HeapOrdered(t, comp) && n in Nodes(t)
    ensures LessEq(comp, t.node.item, n.item)
  {
    if n in Nodes(t.left) {
      RootIsLeast(t.left, comp, n);
    } else if n in Nodes(t.right) {
      RootIsLeast(t.right, comp, n);
    } else {
      assert LessEq(comp, n.item, n.item);
    }
  }

  lemma {:induction false} MergedIsHeap<T(!new)>(a: Tree<T>, b: Tree<T>, comp: (T, T) -> int)
    requires TotalPreorder(comp) && HeapOrdered(a, comp) && HeapOrdered(b, comp)
    ensures HeapOrdered(Merged(a, b, comp), comp)
    decreases Size(a) + Size(b)
  {
    if a.Bin? && b.Bin? {
      assert LessEq(comp, a.node.item, b.node.item) || LessEq(comp, b.node.item, a.node.item);
      if comp(a.node.item, b.node.item) == -1 {
        MergedIsHeap(a.right, b, comp);
        MergedRoot(a.right, b, comp);
      } else {
        MergedIsHeap(a, b.right, comp);
        MergedRoot(a, b.right, comp);
      }
    }
  }

  /** Merging puts one of the two old roots on top. */
  lemma {:induction false} MergedRoot<T>(a: Tree<T>, b: Tree<T>, comp: (T, T) -> int)
    ensures Root(Merged(a, b, comp)) in {Root(a), Root(b)}
  {
  }

  /** Removing any member keeps heap order, however deep the member sits. */
  lemma {:induction false} RemovedIsHeap<T(!new)>(t: Tree<T>, x: Node<T>, comp: (T, T) -> int)
    requires TotalPreorder(comp) && HeapOrdered(t, comp) && Distinct(t) && x in Nodes(t)
    ensures HeapOrdered(Removed(t, x, comp), comp)
  {
    var r := Removed(t, x, comp);
    if t.node == x {
      MergedIsHeap(t.left, t.right, comp);
    } else {
      RemovedIsHeap(if x in Nodes(t.left) then t.left else t.right, x, comp);
      if r.left.Bin? {
        RootIsLeast(t, comp, r.left.node);
      }
      if r.right.Bin? {
        RootIsLeast(t, comp, r.right.node);
      }
    }
  }

  // ---------------------------------------------------------------- amortised cost of one merge

  /** The potential: how many nodes have a right subtree larger than their left one. */
  ghost function Potential<T>(t: Tree<T>): nat {
    if t.Leaf? then 0
    else Potential(t.left) + Potential(t.right) + (if Size(t.right) > Size(t.left) then 1 else 0)
  }

  /** How many nodes on the right spine have no such excess. */
  ghost function LightOnSpine<T>(t: Tree<T>): nat {
    if t.Leaf? then 0
    else LightOnSpine(t.right) + (if Size(t.right) > Size(t.left) then 0 else 1)
  }

  /** Largest k with 2^k <= n. */
  ghost function Log2(n: nat): nat {
    if n < 2 then 0 else 1 + Log2(n / 2)
  }

  lemma {:induction false} Log2Monotone(m: nat, n: nat)
    requires m <= n
    ensures Log2(m) <= Log2(n)
  {
    if m >= 2 {
      Log2Monotone(m / 2, n / 2);
    }
  }

  lemma {:induction false} SpineIsLogarithmic<T>(t: Tree<T>)
    ensures LightOnSpine(t) <= Log2(Size(t) + 1)
  {
    if t.Bin? {
      SpineIsLogarithmic(t.right);
      if Size(t.right) > Size(t.left) {
        Log2Monotone(Size(t.right) + 1, Size(t) + 1);
      } else {
        Log2Monotone(Size(t.right) + 1, (Size(t) + 1) / 2);
      }
    }
  }

  lemma {:induction false} MergePaysForSpines<T>(a: Tree<T>, b: Tree<T>, comp: (T, T) -> int)
    ensures Calls(a, b, comp) + Potential(Merged(a, b, comp))
         <= Potential(a) + Potential(b) + 2 * (LightOnSpine(a) + LightOnSpine(b)) + 1
    decreases Size(a) + Size(b)
  {
    if a.Bin? && b.Bin? {
      if comp(a.node.item, b.node.item) == -1 {
        MergePaysForSpines(a.right, b, comp);
      } else {
        MergePaysForSpines(a, b.right, comp);
      }
    }
  }

  ghost function MergeBudget(m: nat, n: nat): nat {
    2 * (Log2(m + 1) + Log2(n + 1)) + 1
  }

  /** Calls made plus the change of potential stay within a logarithmic budget. */
  lemma {:induction false} MergeIsAmortisedLogarithmic<T>(a: Tree<T>, b: Tree<T>, comp: (T, T) -> int)
    ensures Calls(a, b, comp) + Potential(Merged(a, b, comp))
         <= Potential(a) + Potential(b) + MergeBudget(Size(a), Size(b))
  {
    MergePaysForSpines(a, b, comp);
    SpineIsLogarithmic(a);
    SpineIsLogarithmic(b);
  }

  // ---------------------------------------------------------------- cost of a whole run

  /** One client call on a forest of heaps, addressed by index. */
  datatype Op<T> =
    | New                             // an empty heap
    | Insert(i: nat, node: Node<T>)
    | Merge(i: nat, j: nat)           // heap j is merged into heap i and left empty
    | PopRoot(i: nat)

  ghost predicate Enabled<T>(f: seq<Tree<T>>, op: Op<T>) {
    match op
    case New => true
    case Insert(i, n) => i < |f| && (forall k :: 0 <= k < |f| ==> n !in Nodes(f[k]))
    case Merge(i, j) => i < |f| && j < |f| && i != j
    case PopRoot(i) => i < |f| && f[i].Bin?
  }

  ghost function After<T>(f: seq<Tree<T>>, op: Op<T>, comp: (T, T) -> int): seq<Tree<T>>
    requires Enabled(f, op)
  {
    match op
    case New => f + [Leaf]
    case Insert(i, n) => f[i := Merged(f[i], Bin(Leaf, n, Leaf), comp)]
    case Merge(i, j) => f[i := Merged(f[i], f[j], comp)][j := Leaf]
    case PopRoot(i) => f[i := Merged(f[i].left, f[i].right, comp)]
  }

  /** Calls of skew_heap_merge one client call causes. */
  ghost function Cost<T>(f: seq<Tree<T>>, op: Op<T>, comp: (T, T) -> int): nat
    requires Enabled(f, op)
  {
    match op
    case New => 0
    case Insert(i, n) => Calls(f[i], Bin(Leaf, n, Leaf), comp)
    case Merge(i, j) => Calls(f[i], f[j], comp)
    case PopRoot(i) => Calls(f[i].left, f[i].right, comp)
  }

  ghost predicate Runs<T>(f: seq<Tree<T>>, ops: seq<Op<T>>, comp: (T, T) -> int)
    decreases |ops|
  {
    ops == [] || (Enabled(f, ops[0]) && Runs(After(f, ops[0], comp), ops[1..], comp))
  }

  ghost function RunCost<T>(f: seq<Tree<T>>, ops: seq<Op<T>>, comp: (T, T) -> int): nat
    requires Runs(f, ops, comp)
    decreases |ops|
  {
    if ops == [] then 0 else Cost(f, ops[0], comp) + RunCost(After(f, ops[0], comp), ops[1..], comp)
  }

  ghost function Inserts<T>(ops: seq<Op<T>>): nat {
    if ops == [] then 0 else (if ops[0].Insert? then 1 else 0) + Inserts(ops[1..])
  }

  ghost function TotalPotential<T>(f: seq<Tree<T>>): nat {
    if f == [] then 0 else Potential(f[0]) + TotalPotential(f[1..])
  }

  ghost function TotalSize<T>(f: seq<Tree<T>>): nat {
    if f == [] then 0 else Size(f[0]) + TotalSize(f[1..])
  }

  lemma {:induction false} TotalsAfterUpdate<T>(f: seq<Tree<T>>, i: nat, t: Tree<T>)
    requires i < |f|
    ensures TotalPotential(f[i := t]) + Potential(f[i]) == TotalPotential(f) + Potential(t)
    ensures TotalSize(f[i := t]) + Size(f[i]) == TotalSize(f) + Size(t)
  {
    var g := f[i := t];
    if i == 0 {
      assert g[1..] == f[1..];
    } else {
      assert g[1..] == f[1..][i - 1 := t];
      TotalsAfterUpdate(f[1..], i - 1, t);
    }
  }

  lemma {:induction false} TotalsAppendLeaf<T>(f: seq<Tree<T>>)
    ensures TotalPotential(f + [Leaf]) == TotalPotential(f) && TotalSize(f + [Leaf]) == TotalSize(f)
  {
    if f == [] {
      assert f + [Leaf] == [Leaf];
    } else {
      assert (f + [Leaf])[1..] == f[1..] + [Leaf];
      TotalsAppendLeaf(f[1..]);
    }
  }

  lemma {:induction false} MemberSize<T>(f: seq<Tree<T>>, i: nat)
    requires i < |f|
    ensures Size(f[i]) <= TotalSize(f)
  {
    if i > 0 {
      MemberSize(f[1..], i - 1);
    }
  }

  /** The amortised price of an operation when at most `n` nodes are about. */
  ghost function Price(n: nat): nat {
    4 * Log2(n + 1) + 1
  }

  lemma {:induction false} MergeWithinPrice<T>(a: Tree<T>, b: Tree<T>, comp: (T, T) -> int, n: nat)
    requires Size(a) <= n && Size(b) <= n
    ensures Calls(a, b, comp) + Potential(Merged(a, b, comp)) <= Potential(a) + Potential(b) + Price(n)
  {
    MergeIsAmortisedLogarithmic(a, b, comp);
    Log2Monotone(Size(a) + 1, n + 1);
    Log2Monotone(Size(b) + 1, n + 1);
  }

  lemma {:induction false} StepWithinPrice<T>(f: seq<Tree<T>>, op: Op<T>, comp: (T, T) -> int, n: nat)
    requires Enabled(f, op) && TotalSize(f) <= n && (op.Insert? ==> 1 <= n)
    ensures Cost(f, op, comp) + TotalPotential(After(f, op, comp)) <= TotalPotential(f) + Price(n)
    ensures TotalSize(After(f, op, comp)) <= TotalSize(f) + if op.Insert? then 1 else 0
  {
    match op
    case New =>
      TotalsAppendLeaf(f);
    case Insert(i, node) =>
      MemberSize(f, i);
      MergeWithinPrice(f[i], Bin(Leaf, node, Leaf), comp, n);
      TotalsAfterUpdate(f, i, After(f, op, comp)[i]);
    case Merge(i, j) =>
      MemberSize(f, i);
      MemberSize(f, j);
      MergeWithinPrice(f[i], f[j], comp, n);
      var g := f[i := Merged(f[i], f[j], comp)];
      TotalsAfterUpdate(f, i, g[i]);
      TotalsAfterUpdate(g, j, Leaf);
    case PopRoot(i) =>
      MemberSize(f, i);
      MergeWithinPrice(f[i].left, f[i].right, comp, n);
      TotalsAfterUpdate(f, i, After(f, op, comp)[i]);
  }

  lemma {:induction false} RunFrom<T>(f: seq<Tree<T>>, ops: seq<Op<T>>, comp: (T, T) -> int, n: nat)
    requires Runs(f, ops, comp) && TotalSize(f) + Inserts(ops) <= n
    ensures RunCost(f, ops, comp) <= TotalPotential(f) + |ops| * Price(n)
    decreases |ops|
  {
    if ops != [] {
      StepWithinPrice(f, ops[0], comp, n);
      RunFrom(After(f, ops[0], comp), ops[1..], comp, n);
      Distribute(|ops|, Price(n));
    }
  }

  lemma Distribute(m: nat, p: nat)
    requires m > 0
    ensures m * p == p + (m - 1) * p
  {
  }

  /** A run that starts without heaps and inserts n nodes makes at most 4 log2(n+1) + 1 merge calls per operation. */
  lemma {:induction false} RunIsAmortisedLogarithmic<T>(ops: seq<Op<T>>, comp: (T, T) -> int)
    requires Runs([], ops, comp)
    ensures RunCost([], ops, comp) <= |ops| * Price(Inserts(ops))
  {
    RunFrom([], ops, comp, Inserts(ops));
  }
}
