/**
 The arithmetic of buddy systems and the uniqueness of fully merged decompositions.

 Pages are numbered from 0.  A block is an aligned run of 2^order pages; `cell` is its position
 counted in runs of that order, so page p lies in the block exactly when p shifted right by the
 order equals the cell.
 */
module BuddyTheory {
  import opened Words

  /** BUDDY_MAX_ORDER */
  const MAX_ORDER: nat := 15

  /** p >> o */
  function Cell(p: nat, o: nat): nat {
    if o == 0 then p else Cell(p, o - 1) / 2
  }

  datatype Block = Block(cell: nat, order: nat)

  function First(b: Block): nat {
    b.cell * Pow2(b.order)
  }

  function Parent(b: Block): Block {
    Block(b.cell / 2, b.order + 1)
  }

  function Buddy(b: Block): (r: Block)
    ensures r != b && r.order == b.order && Parent(r) == Parent(b)
  {
    Block(if b.cell % 2 == 0 then b.cell + 1 else b.cell - 1, b.order)
  }

  ghost predicate Covers(b: Block, p: nat) {
    Cell(p, b.order) == b.cell
  }

  /** The pages lo, lo + 1, ..., lo + n - 1. */
  ghost function Run(lo: nat, n: nat): set<nat> {
    if n == 0 then {} else Run(lo, n - 1) + {lo + n - 1}
  }

  lemma {:induction false} RunMembers(lo: nat, n: nat)
    ensures forall p :: p in Run(lo, n) <==> lo <= p < lo + n
    ensures |Run(lo, n)| == n
  {
    if n > 0 {
      RunMembers(lo, n - 1);
    }
  }

  lemma RunJoin(lo: nat, m: nat, n: nat)
    ensures Run(lo, m) + Run(lo + m, n) == Run(lo, m + n) && Run(lo, m) !! Run(lo + m, n)
  {
    RunMembers(lo, m);
    RunMembers(lo + m, n);
    RunMembers(lo, m + n);
  }

  ghost function Pages(b: Block): set<nat> {
    Run(First(b), Pow2(b.order))
  }

  // ---------------------------------------------------------------- arithmetic

  /** A cell is the interval of pages [cell * 2^o, (cell + 1) * 2^o). */
  lemma {:induction false} CellInterval(p: nat, o: nat, c: nat)
    ensures Cell(p, o) == c <==> c * Pow2(o) <= p < c * Pow2(o) + Pow2(o)
  {
    if o == 0 {
      assert c * Pow2(0) == c;
    } else {
      CellInterval(p, o - 1, 2 * c);
      CellInterval(p, o - 1, 2 * c + 1);
      var h := Pow2(o - 1);
      assert c * Pow2(o) == 2 * c * h && (2 * c + 1) * h == 2 * c * h + h;
    }
  }

  lemma CoversIsPages(b: Block, p: nat)
    ensures Covers(b, p) <==> p in Pages(b)
  {
    CellInterval(p, b.order, b.cell);
    RunMembers(First(b), Pow2(b.order));
  }

  lemma {:induction false} CellMonotone(p: nat, q: nat, o: nat)
    requires p <= q
    ensures Cell(p, o) <= Cell(q, o)
  {
    if o > 0 {
      CellMonotone(p, q, o - 1);
    }
  }

  lemma FirstCovered(b: Block)
    ensures Covers(b, First(b))
  {
    CellInterval(First(b), b.order, b.cell);
  }

  /** Shifting in two steps. */
  lemma {:induction false} CellTwice(p: nat, m: nat, n: nat)
    ensures Cell(Cell(p, m), n) == Cell(p, m + n)
  {
    if n > 0 {
      CellTwice(p, m, n - 1);
    }
  }

  lemma Pow2Injective(m: nat, n: nat)
    requires Pow2(m) == Pow2(n)
    ensures m == n
  {
    if m < n {
      Pow2Monotone(m, n);
    } else if n < m {
      Pow2Monotone(n, m);
    }
  }

  /** Page i heads a block of order o. */
  predicate Aligned(i: nat, o: nat) {
    i == Cell(i, o) * Pow2(o)
  }

  lemma AlignedIffDivisible(i: nat, o: nat)
    ensures Aligned(i, o) <==> i % Pow2(o) == 0
  {
    Euclid(i, Pow2(o));
    CellInterval(i, o, i / Pow2(o));
  }

  lemma {:induction false} AlignedLower(i: nat, m: nat, n: nat)
    requires m <= n && Aligned(i, n)
    ensures Aligned(i, m)
  {
    Pow2Sum(m, n - m);
    var c := Cell(i, n) * Pow2(n - m);
    assert i == c * Pow2(m);
    CellInterval(i, m, c);
  }

  lemma AlignedSum(i: nat, k: nat, o: nat)
    requires Aligned(i, o) && Aligned(k, o)
    ensures Aligned(i + k, o)
  {
    var c := Cell(i, o) + Cell(k, o);
    assert i + k == c * Pow2(o);
    CellInterval(i + k, o, c);
  }

  lemma Pow2Aligned(m: nat, n: nat)
    requires m <= n
    ensures Aligned(Pow2(n), m)
  {
    CellInterval(Pow2(n), n, 1);
    AlignedLower(Pow2(n), m, n);
  }

  // ---------------------------------------------------------------- bitwise operators of the source

  lemma {:induction false} XorZero(a: nat)
    ensures Xor(a, 0) == a
  {
    if a > 0 {
      XorZero(a / 2);
    }
  }

  lemma Twice(c: nat, h: nat)
    ensures c * (2 * h) == 2 * (c * h)
  {
  }

  /** XOR-ing the index of a block with its size gives the index of its buddy. */
  lemma {:induction false} XorFindsBuddy(b: Block)
    ensures Xor(First(b), Pow2(b.order)) == First(Buddy(b))
    decreases b.order
  {
    if b.order == 0 {
      XorZero(b.cell / 2);
    } else {
      var h := Block(b.cell, b.order - 1);
      XorFindsBuddy(h);
      Twice(h.cell, Pow2(h.order));
      Twice(Buddy(h).cell, Pow2(h.order));
      XorTwice(First(h), Pow2(h.order));
    }
  }

  lemma XorTwice(a: nat, b: nat)
    ensures Xor(2 * a, 2 * b) == 2 * Xor(a, b)
  {
  }

  lemma {:induction false} AndSelf(a: nat)
    ensures And(a, a) == a
  {
    if a > 0 {
      AndSelf(a / 2);
    }
  }

  ghost predicate IsPow2(n: nat) {
    exists k: nat :: n == Pow2(k)
  }

  /** n & (n - 1) vanishes exactly for powers of two. */
  lemma {:induction false} AndTestsPow2(n: nat)
    requires n > 0
    ensures And(n, n - 1) == 0 <==> IsPow2(n)
  {
    if n == 1 {
      assert n == Pow2(0);
      assert And(0, 0) == 0;
    } else if n % 2 == 1 {
      AndSelf(n / 2);
      assert (n - 1) / 2 == n / 2;
    } else {
      var m := n / 2;
      AndTestsPow2(m);
      assert (n - 1) / 2 == m - 1;
      if IsPow2(m) {
        var k: nat :| m == Pow2(k);
        assert n == Pow2(k + 1);
      }
      if IsPow2(n) {
        var k: nat :| n == Pow2(k);
        assert m == Pow2(k - 1);
      }
    }
  }

  // ---------------------------------------------------------------- decompositions

  ghost predicate Within(b: Block, free: set<nat>) {
    forall p :: Covers(b, p) ==> p in free
  }

  ghost predicate Disjoint(blocks: set<Block>) {
    forall b, c, p :: b in blocks && c in blocks && Covers(b, p) && Covers(c, p) ==> b == c
  }

  /** The blocks cut up exactly the pages of `free`. */
  ghost predicate Tiling(blocks: set<Block>, free: set<nat>) {
    && (forall b :: b in blocks ==> b.order <= MAX_ORDER && Within(b, free))
    && Disjoint(blocks)
    && (forall p :: p in free ==> exists b :: b in blocks && Covers(b, p))
  }

  /** No two buddies below the top order are both present. */
  ghost predicate FullyMerged(blocks: set<Block>) {
    forall b :: b in blocks && b.order < MAX_ORDER ==> Buddy(b) !in blocks
  }

  /** Block `b` includes block `x`. */
  ghost predicate Includes(b: Block, x: Block) {
    x.order <= b.order && Cell(x.cell, b.order - x.order) == b.cell
  }

  lemma IncludesCovers(b: Block, x: Block, p: nat)
    requires Includes(b, x) && Covers(x, p)
    ensures Covers(b, p)
  {
    CellTwice(p, x.order, b.order - x.order);
  }

  lemma {:induction false} IncludesParent(b: Block, x: Block)
    requires Includes(b, x) && x.order < b.order
    ensures Includes(b, Parent(x))
  {
    CellTwice(x.cell, 1, b.order - x.order - 1);
    assert Cell(x.cell, 1) == Cell(x.cell, 0) / 2;
  }

  lemma {:induction false} IncludesUp(b: Block, x: Block)
    requires Includes(b, Parent(x))
    ensures Includes(b, x)
  {
    CellTwice(x.cell, 1, b.order - x.order - 1);
    assert Cell(x.cell, 1) == Cell(x.cell, 0) / 2;
  }

  /** In a fully merged tiling a wholly free block lies inside a single block of the tiling. */
  lemma {:induction false} FreeRunInOneBlock(blocks: set<Block>, free: set<nat>, x: Block) returns (b: Block)
    requires Tiling(blocks, free) && FullyMerged(blocks) && x.order <= MAX_ORDER && Within(x, free)
    ensures b in blocks && Includes(b, x)
    decreases x.order
  {
    if x.order == 0 {
      assert Covers(x, x.cell);
      b :| b in blocks && Covers(b, x.cell);
    } else {
      var l, r := Block(2 * x.cell, x.order - 1), Block(2 * x.cell + 1, x.order - 1);
      assert forall p :: Covers(l, p) || Covers(r, p) ==> Covers(x, p);
      assert Buddy(l) == r;
      b := FreeRunInOneBlock(blocks, free, l);
      var c := FreeRunInOneBlock(blocks, free, r);
      if b.order > l.order {
        IncludesParent(b, l);
      } else if c.order > r.order {
        IncludesParent(c, r);
        b := c;
      } else {
        assert false;
      }
    }
  }

  /** The maximal wholly free aligned blocks of a set of pages. */
  ghost predicate Maximal(b: Block, free: set<nat>) {
    && b.order <= MAX_ORDER && Within(b, free)
    && (b.order < MAX_ORDER ==> !Within(Parent(b), free))
  }

  /** A fully merged tiling consists of the maximal free blocks: it is determined by the free pages alone. */
  lemma {:induction false} MergedTilingIsMaximal(blocks: set<Block>, free: set<nat>, b: Block)
    requires Tiling(blocks, free) && FullyMerged(blocks)
    ensures b in blocks <==> Maximal(b, free)
  {
    if b in blocks && b.order < MAX_ORDER && Within(Parent(b), free) {
      var c := FreeRunInOneBlock(blocks, free, Parent(b));
      IncludesUp(c, b);
      FirstCovered(b);
      IncludesCovers(c, b, First(b));
      assert false;
    }
    if Maximal(b, free) {
      var c := FreeRunInOneBlock(blocks, free, b);
      if c.order > b.order {
        IncludesParent(c, b);
        forall p | Covers(Parent(b), p)
          ensures p in free
        {
          IncludesCovers(c, Parent(b), p);
        }
        assert Within(Parent(b), free);
        assert false;
      }
    }
  }

  /** Two fully merged tilings of the same pages are the same. */
  lemma MergedTilingIsUnique(b1: set<Block>, b2: set<Block>, free: set<nat>)
    requires Tiling(b1, free) && FullyMerged(b1) && Tiling(b2, free) && FullyMerged(b2)
    ensures b1 == b2
  {
    forall b
      ensures b in b1 <==> b in b2
    {
      MergedTilingIsMaximal(b1, free, b);
      MergedTilingIsMaximal(b2, free, b);
    }
  }

  /** Exchanging two buddies for their parent leaves the tiled pages alone. */
  lemma MergeBuddies(blocks: set<Block>, free: set<nat>, b: Block)
    requires Tiling(blocks, free) && b in blocks && Buddy(b) in blocks && b.order < MAX_ORDER
    ensures Tiling(blocks - {b, Buddy(b)} + {Parent(b)}, free)
    ensures Parent(b) !in blocks
  {
    var d, u := Buddy(b), Parent(b);
    assert forall p :: Covers(u, p) <==> Covers(b, p) || Covers(d, p);
    FirstCovered(b);
    assert Covers(u, First(b));
    var r := blocks - {b, d} + {u};
    forall p | p in free
      ensures exists c :: c in r && Covers(c, p)
    {
      var c :| c in blocks && Covers(c, p);
      if c == b || c == d {
        assert u in r && Covers(u, p);
      } else {
        assert c in r;
      }
    }
  }

  /** Exchanging a block for its two halves leaves the tiled pages alone. */
  lemma SplitBlock(blocks: set<Block>, free: set<nat>, b: Block)
    requires Tiling(blocks, free) && b in blocks && b.order > 0
    ensures var l, r := Block(2 * b.cell, b.order - 1), Block(2 * b.cell + 1, b.order - 1);
      && Tiling(blocks - {b} + {l, r}, free) && l !in blocks && r !in blocks && Buddy(r) == l && l != r
  {
    var l, r := Block(2 * b.cell, b.order - 1), Block(2 * b.cell + 1, b.order - 1);
    assert forall p :: Covers(b, p) <==> Covers(l, p) || Covers(r, p);
    FirstCovered(l);
    FirstCovered(r);
    var s := blocks - {b} + {l, r};
    forall p | p in free
      ensures exists c :: c in s && Covers(c, p)
    {
      var c :| c in blocks && Covers(c, p);
      if c == b {
        assert l in s && r in s && (Covers(l, p) || Covers(r, p));
      } else {
        assert c in s;
      }
    }
  }

  lemma DropBlock(blocks: set<Block>, free: set<nat>, b: Block)
    requires Tiling(blocks, free) && b in blocks
    ensures Tiling(blocks - {b}, free - Pages(b)) && Pages(b) <= free
  {
    forall p: nat
      ensures Covers(b, p) <==> p in Pages(b)
    {
      CoversIsPages(b, p);
    }
    var r, f := blocks - {b}, free - Pages(b);
    forall p | p in f
      ensures exists c :: c in r && Covers(c, p)
    {
      var c :| c in blocks && Covers(c, p);
      assert c in r;
    }
    forall c | c in r
      ensures Within(c, f)
    {
      assert forall p :: Covers(c, p) ==> !Covers(b, p);
    }
  }

  lemma AddCells(blocks: set<Block>, free: set<nat>, b: Block, all: set<nat>)
    requires Tiling(blocks, free) && b.order <= MAX_ORDER
    requires forall p :: Covers(b, p) ==> p !in free
    requires forall p :: p in all <==> p in free || Covers(b, p)
    ensures Tiling(blocks + {b}, all)
  {
    var r := blocks + {b};
    forall p | p in all
      ensures exists c :: c in r && Covers(c, p)
    {
      if p in free {
        var c :| c in blocks && Covers(c, p);
        assert c in r;
      } else {
        assert b in r && Covers(b, p);
      }
    }
  }

  lemma AddBlock(blocks: set<Block>, free: set<nat>, b: Block)
    requires Tiling(blocks, free) && Pages(b) !! free && b.order <= MAX_ORDER
    ensures Tiling(blocks + {b}, free + Pages(b)) && b !in blocks
  {
    forall p: nat
      ensures Covers(b, p) <==> p in Pages(b)
    {
      CoversIsPages(b, p);
    }
    FirstCovered(b);
    AddCells(blocks, free, b, free + Pages(b));
  }

  // ---------------------------------------------------------------- the decomposition of a whole range

  /** ⌊n / 2^15⌋ maximal blocks, and one block for every set bit of n mod 2^15, below the bit's position in n. */
  ghost predicate Initial(b: Block, n: nat) {
    if b.order == MAX_ORDER then b.cell < Cell(n, MAX_ORDER)
    else b.order < MAX_ORDER && Cell(n, b.order) % 2 == 1 && b.cell == Cell(n, b.order) - 1
  }

  lemma WithinBelow(b: Block, n: nat)
    ensures Within(b, Run(0, n)) <==> b.cell < Cell(n, b.order)
  {
    RunMembers(0, n);
    if b.cell < Cell(n, b.order) {
      forall p: nat | Covers(b, p)
        ensures p < n
      {
        if n <= p {
          CellMonotone(n, p, b.order);
        }
      }
    } else {
      FirstCovered(b);
      if First(b) < n {
        CellMonotone(First(b), n, b.order);
        assert Covers(b, n);
      }
    }
  }

  lemma {:induction false} WholeRangeIsInitial(blocks: set<Block>, n: nat, b: Block)
    requires Tiling(blocks, Run(0, n)) && FullyMerged(blocks)
    ensures b in blocks <==> Initial(b, n)
  {
    MergedTilingIsMaximal(blocks, Run(0, n), b);
    WithinBelow(b, n);
    WithinBelow(Parent(b), n);
  }
}
