/**
 The self-adjusting priority queue of lab8/libs/skew_heap.h: nodes carry `parent`, `left` and
 `right` pointers that merging, insertion and removal rewrite in place.

 A ghost `Tree` mirrors the pointer structure.  The methods are proved to turn the tree they are
 given into `Merged` or `Removed` of it, to move no node in or out, and to keep every pointer of
 the structure consistent; the laws about heap order and amortised cost are then proved about
 those functions on trees.
 */
module SkewHeap {

  class Node<T> {
    const item: T
    var parent: Node?<T>
    var left: Node?<T>
    var right: Node?<T>

    constructor (item: T)
      ensures this.item == item
    {
      this.item := item;
      parent, left, right := null, null, null;
    }
  }

  datatype Tree<T> = Leaf | Bin(left: Tree<T>, node: Node<T>, right: Tree<T>)

  ghost function Root<T>(t: Tree<T>): Node?<T> {
    if t.Leaf? then null else t.node
  }

  ghost function Nodes<T>(t: Tree<T>): (r: set<Node<T>>)
    ensures if t.Leaf? then r == {} else t.node in r
  {
    if t.Leaf? then {} else Nodes(t.left) + {t.node} + Nodes(t.right)
  }

  ghost function Size<T>(t: Tree<T>): nat {
    if t.Leaf? then 0 else Size(t.left) + 1 + Size(t.right)
  }

  /** No node occurs twice. */
  ghost predicate Distinct<T>(t: Tree<T>) {
    t.Bin? ==>
      && Distinct(t.left) && Distinct(t.right)
      && t.node !in Nodes(t.left) && t.node !in Nodes(t.right)
      && Nodes(t.left) !! Nodes(t.right)
  }

  /** The three pointers of a node, and a picture of the pointers of a set of nodes. */
  datatype Links<T> = Links(parent: Node?<T>, left: Node?<T>, right: Node?<T>)

  ghost function Picture<T>(s: set<Node<T>>): map<Node<T>, Links<T>>
    reads s
  {
    map n | n in s :: Links(n.parent, n.left, n.right)
  }

  /** In picture `m` the nodes of `t` spell out `t`; the parent of the root is left open. */
  ghost predicate Shape<T>(t: Tree<T>, m: map<Node<T>, Links<T>>)
    requires Nodes(t) <= m.Keys
  {
    t.Bin? ==>
      && m[t.node].left == Root(t.left) && m[t.node].right == Root(t.right)
      && (t.left.Bin? ==> m[t.left.node].parent == t.node)
      && (t.right.Bin? ==> m[t.right.node].parent == t.node)
      && Shape(t.left, m) && Shape(t.right, m)
  }

  /** Pointer `a` is the root of a consistent tree, and that tree is `t`. */
  ghost predicate Represents<T>(a: Node?<T>, t: Tree<T>)
    reads Nodes(t)
  {
    a == Root(t) && Distinct(t) && Shape(t, Picture(Nodes(t)))
  }

  /** The shape of a tree depends on the links of its nodes alone, and not on its root's parent. */
  lemma {:induction false} ShapeFrame<T>(t: Tree<T>, m: map<Node<T>, Links<T>>, w: map<Node<T>, Links<T>>)
    requires Distinct(t) && Nodes(t) <= m.Keys && Nodes(t) <= w.Keys && Shape(t, m)
    requires forall n :: n in Nodes(t) ==> w[n].left == m[n].left && w[n].right == m[n].right
    requires forall n :: n in Nodes(t) && n != Root(t) ==> w[n].parent == m[n].parent
    ensures Shape(t, w)
  {
    if t.Bin? {
      ShapeFrame(t.left, m, w);
      ShapeFrame(t.right, m, w);
    }
  }

  // ---------------------------------------------------------------- what merging computes

  ghost function Merged<T>(a: Tree<T>, b: Tree<T>, comp: (T, T) -> int): (r: Tree<T>)
    ensures Nodes(r) == Nodes(a) + Nodes(b)
    ensures Size(r) == Size(a) + Size(b)
    ensures Distinct(a) && Distinct(b) && Nodes(a) !! Nodes(b) ==> Distinct(r)
    decreases Size(a) + Size(b)
  {
    if a.Leaf? then b
    else if b.Leaf? then a
    else if comp(a.node.item, b.node.item) == -1 then
      Bin(Merged(a.right, b, comp), a.node, a.left)
    else
      Bin(Merged(a, b.right, comp), b.node, b.left)
  }

  /** Calls of skew_heap_merge made by one merge, itself included. */
  ghost function Calls<T>(a: Tree<T>, b: Tree<T>, comp: (T, T) -> int): nat
    decreases Size(a) + Size(b)
  {
    if a.Leaf? || b.Leaf? then 1
    else if comp(a.node.item, b.node.item) == -1 then 1 + Calls(a.right, b, comp)
    else 1 + Calls(a, b.right, comp)
  }

  /** The subtree whose root is `x`. */
  ghost function Subtree<T>(t: Tree<T>, x: Node<T>): (s: Tree<T>)
    requires x in Nodes(t)
    ensures s.Bin? && s.node == x && Nodes(s) <= Nodes(t) && Size(s) <= Size(t)
    ensures Distinct(t) ==> Distinct(s)
    ensures Distinct(t) && t.node != x ==> t.node !in Nodes(s)
  {
    if t.node == x then t
    else if x in Nodes(t.left) then Subtree(t.left, x)
    else Subtree(t.right, x)
  }

  /** The tree with the subtree at `x` exchanged for `rep`. */
  ghost function Replaced<T>(t: Tree<T>, x: Node<T>, rep: Tree<T>): (r: Tree<T>)
    requires x in Nodes(t)
    requires Nodes(rep) == Nodes(Subtree(t, x)) - {x}
    ensures Distinct(t) ==> Nodes(r) == Nodes(t) - {x}
    ensures Distinct(t) && Distinct(rep) ==> Distinct(r)
    ensures Size(r) == Size(t) - Size(Subtree(t, x)) + Size(rep)
  {
    if t.node == x then rep
    else if x in Nodes(t.left) then Bin(Replaced(t.left, x, rep), t.node, t.right)
    else Bin(t.left, t.node, Replaced(t.right, x, rep))
  }

  /** The tree without `x`: the subtree at `x` gives way to the merge of its two children. */
  ghost function Removed<T>(t: Tree<T>, x: Node<T>, comp: (T, T) -> int): (r: Tree<T>)
    requires Distinct(t) && x in Nodes(t)
    ensures Nodes(r) == Nodes(t) - {x} && Distinct(r)
    ensures Size(r) == Size(t) - 1
  {
    var s := Subtree(t, x);
    Replaced(t, x, Merged(s.left, s.right, comp))
  }

  // ---------------------------------------------------------------- the heap operations

  method Init<T>(a: Node<T>)
    modifies a
    ensures a.left == a.right == a.parent == null
    ensures Represents(a, Bin(Leaf, a, Leaf))
  {
    a.left, a.right, a.parent := null, null, null;
  }

  /** The two children of a consistent tree are consistent and point back at their parent. */
  lemma Children<T>(t: Tree<T>)
    requires t.Bin? && Represents(t.node, t)
    ensures Represents(t.node.left, t.left) && Represents(t.node.right, t.right)
    ensures t.node.left != null ==> t.node.left.parent == t.node
    ensures t.node.right != null ==> t.node.right.parent == t.node
  {
    ShapeFrame(t.left, Picture(Nodes(t)), Picture(Nodes(t.left)));
    ShapeFrame(t.right, Picture(Nodes(t)), Picture(Nodes(t.right)));
  }

  /** `if (n) n->parent = p`: the tree below `n` does not notice. */
  method SetParent<T>(n: Node?<T>, p: Node?<T>, ghost t: Tree<T>)
    requires Represents(n, t)
    modifies if n == null then {} else {n}
    ensures Represents(n, t)
    ensures n != null ==> n.parent == p && n.left == old(n.left) && n.right == old(n.right)
  {
    ghost var m := Picture(Nodes(t));
    if n != null {
      n.parent := p;
    }
    ShapeFrame(t, m, Picture(Nodes(t)));
  }

  /** The assignments that end both branches of skew_heap_merge. */
  method Attach<T>(n: Node<T>, l: Node?<T>, r: Node?<T>, ghost tl: Tree<T>, ghost tr: Tree<T>,
      ghost mr: map<Node<T>, Links<T>>)
    requires Represents(l, tl) && r == Root(tr) && Distinct(Bin(tl, n, tr))
    requires mr.Keys == Nodes(tr) && Shape(tr, mr)
    requires forall o :: o in Nodes(tr) ==> Links(o.parent, o.left, o.right) == mr[o]
    requires r != null ==> r.parent == n
    modifies n`left, n`right, if l == null then {} else {l}
    ensures Represents(n, Bin(tl, n, tr))
    ensures n.left == l && n.right == r
  {
    ghost var ml := Picture(Nodes(tl));
    n.left := l;
    n.right := r;
    if l != null {
      l.parent := n;
    }
    JoinShapes(n, tl, tr, ml, mr, Picture(Nodes(Bin(tl, n, tr))));
  }

  /** Two trees under a node, seen in one picture. */
  lemma {:induction false} JoinShapes<T>(n: Node<T>, tl: Tree<T>, tr: Tree<T>, ml: map<Node<T>, Links<T>>,
      mr: map<Node<T>, Links<T>>, w: map<Node<T>, Links<T>>)
    requires Distinct(Bin(tl, n, tr)) && Nodes(Bin(tl, n, tr)) <= w.Keys && ml.Keys == Nodes(tl) && mr.Keys == Nodes(tr)
    requires Shape(tl, ml) && Shape(tr, mr)
    requires forall o :: o in Nodes(tl) ==> w[o].left == ml[o].left && w[o].right == ml[o].right
    requires forall o :: o in Nodes(tl) && o != Root(tl) ==> w[o].parent == ml[o].parent
    requires forall o :: o in Nodes(tr) ==> w[o] == mr[o]
    requires w[n].left == Root(tl) && w[n].right == Root(tr)
    requires (tl.Bin? ==> w[tl.node].parent == n) && (tr.Bin? ==> w[tr.node].parent == n)
    ensures Shape(Bin(tl, n, tr), w)
  {
    ShapeFrame(tl, ml, w);
    ShapeFrame(tr, mr, w);
  }

  /** The node that comes out on top: b, unless a is strictly before it. */
  function Upper<T>(a: Node?<T>, b: Node?<T>, comp: (T, T) -> int): Node?<T> {
    if a == null then b
    else if b == null || comp(a.item, b.item) == -1 then a
    else b
  }

  method Merge<T>(a: Node?<T>, b: Node?<T>, comp: (T, T) -> int, ghost ta: Tree<T>, ghost tb: Tree<T>)
    returns (h: Node?<T>, ghost calls: nat)
    requires Represents(a, ta) && Represents(b, tb) && Nodes(ta) !! Nodes(tb)
    modifies Nodes(ta) + Nodes(tb)
    ensures Represents(h, Merged(ta, tb, comp))
    ensures h != null ==> h.parent == old(h.parent)
    ensures h == Upper(a, b, comp) && (a != null && b != null ==> h.right == old(h.left))
    ensures h == if a == null then b else if b == null || comp(a.item, b.item) == -1 then a else b
    ensures calls == Calls(ta, tb, comp)
    decreases Size(ta) + Size(tb)
  {
    hide Shape;
    if a == null {
      return b, 1;
    } else if b == null {
      return a, 1;
    }
    Children(ta);
    Children(tb);
    if comp(a.item, b.item) == -1 {
      var r := a.left;
      ghost var mr := Picture(Nodes(ta.left));
      ghost var tl := Merged(ta.right, tb, comp);
      assert Merged(ta, tb, comp) == Bin(tl, a, ta.left);
      var l, n := Merge(a.right, b, comp, ta.right, tb);
      Attach(a, l, r, tl, ta.left, mr);
      return a, n + 1;
    } else {
      var r := b.left;
      ghost var mr := Picture(Nodes(tb.left));
      ghost var tl := Merged(ta, tb.right, comp);
      assert Merged(ta, tb, comp) == Bin(tl, b, tb.left);
      var l, n := Merge(a, b.right, comp, ta, tb.right);
      Attach(b, l, r, tl, tb.left, mr);
      return b, n + 1;
    }
  }

  method Insert<T>(a: Node?<T>, b: Node<T>, comp: (T, T) -> int, ghost ta: Tree<T>)
    returns (h: Node?<T>, ghost calls: nat)
    requires Represents(a, ta) && b !in Nodes(ta)
    requires a != null ==> a.parent == null
    modifies Nodes(ta), b
    ensures Represents(h, Merged(ta, Bin(Leaf, b, Leaf), comp))
    ensures h != null && h.parent == null && h == Upper(a, b, comp)
    ensures calls == Calls(ta, Bin(Leaf, b, Leaf), comp)
  {
    ghost var m := Picture(Nodes(ta));
    Init(b);
    assert Picture(Nodes(ta)) == m;
    h, calls := Merge(a, b, comp, ta, Bin(Leaf, b, Leaf));
  }

  // ---------------------------------------------------------------- removal of any member

  /** The node that `x`, a member other than the root, hangs below. */
  ghost function ParentIn<T>(t: Tree<T>, x: Node<T>): (p: Node<T>)
    requires x in Nodes(t) && x != Root(t)
    ensures Distinct(t) ==> p in Nodes(t) - Nodes(Subtree(t, x))
  {
    var side := if x in Nodes(t.left) then t.left else t.right;
    if side.node == x then t.node else ParentIn(side, x)
  }

  lemma {:induction false} ParentLinks<T>(t: Tree<T>, x: Node<T>, m: map<Node<T>, Links<T>>)
    requires Distinct(t) && Nodes(t) <= m.Keys && Shape(t, m) && x in Nodes(t) && x != Root(t)
    ensures m[x].parent == ParentIn(t, x)
    ensures m[ParentIn(t, x)].left == x <==> m[ParentIn(t, x)].right != x
    ensures Shape(Subtree(t, x), m)
  {
    var side := if x in Nodes(t.left) then t.left else t.right;
    if side.node != x {
      ParentLinks(side, x, m);
    }
  }

  /**
   From picture `m` to `w` the link to `x` is redirected to a tree of the nodes below `x`; no node above
   changes otherwise.
   */
  ghost predicate Redirected<T>(t: Tree<T>, x: Node<T>, rep: Tree<T>, m: map<Node<T>, Links<T>>,
      w: map<Node<T>, Links<T>>) {
    && Distinct(t) && Nodes(t) <= m.Keys && Nodes(t) <= w.Keys && Shape(t, m)
    && x in Nodes(t) && x != Root(t) && Nodes(rep) == Nodes(Subtree(t, x)) - {x}
    && Shape(rep, w) && (rep.Bin? ==> w[rep.node].parent == ParentIn(t, x))
    && (forall n :: n in Nodes(t) - Nodes(Subtree(t, x)) && n != ParentIn(t, x) ==> w[n] == m[n])
    && var p := ParentIn(t, x);
       w[p] == (if m[p].left == x then m[p].(left := Root(rep)) else m[p].(right := Root(rep)))
  }

  lemma {:induction false} SpliceLeft<T>(t: Tree<T>, x: Node<T>, rep: Tree<T>, m: map<Node<T>, Links<T>>,
      w: map<Node<T>, Links<T>>)
    requires Redirected(t, x, rep, m, w)
    requires x in Nodes(t.left)
    requires t.left.node != x ==> Shape(Replaced(t.left, x, rep), w)
    ensures Shape(Replaced(t, x, rep), w)
  {
    ShapeFrame(t.right, m, w);
    if t.left.node != x {
      assert Subtree(t, x) == Subtree(t.left, x);
      assert t.left.node in Nodes(t) - Nodes(Subtree(t, x));
    }
  }

  lemma {:induction false} SpliceRight<T>(t: Tree<T>, x: Node<T>, rep: Tree<T>, m: map<Node<T>, Links<T>>,
      w: map<Node<T>, Links<T>>)
    requires Redirected(t, x, rep, m, w)
    requires x in Nodes(t.right)
    requires t.right.node != x ==> Shape(Replaced(t.right, x, rep), w)
    ensures Shape(Replaced(t, x, rep), w)
  {
    ShapeFrame(t.left, m, w);
    if t.right.node != x {
      assert Subtree(t, x) == Subtree(t.right, x);
      assert t.right.node in Nodes(t) - Nodes(Subtree(t, x));
    }
  }

  /** Redirecting the parent's link splices the replacement in and leaves the rest of the tree alone. */
  lemma {:induction false} Splice<T>(t: Tree<T>, x: Node<T>, rep: Tree<T>, m: map<Node<T>, Links<T>>,
      w: map<Node<T>, Links<T>>)
    requires Redirected(t, x, rep, m, w)
    ensures Shape(Replaced(t, x, rep), w)
  {
    if x in Nodes(t.left) {
      if t.left.node != x {
        Splice(t.left, x, rep, m, w);
      }
      SpliceLeft(t, x, rep, m, w);
    } else {
      if t.right.node != x {
        Splice(t.right, x, rep, m, w);
      }
      SpliceRight(t, x, rep, m, w);
    }
  }

  /** The subtree of a member is consistent, and the member's parent is the one the tree says. */
  lemma Member<T>(t: Tree<T>, x: Node<T>)
    requires Represents(Root(t), t) && x in Nodes(t)
    ensures Represents(x, Subtree(t, x))
    ensures x != Root(t) ==> x.parent == ParentIn(t, x)
  {
    var s, m := Subtree(t, x), Picture(Nodes(t));
    if x != Root(t) {
      ParentLinks(t, x, m);
    }
    ShapeFrame(s, m, Picture(Nodes(s)));
  }

  /** The link of the parent `p` that led to `b` is made to lead to `rep`. */
  method Relink<T>(p: Node<T>, b: Node<T>, rep: Node?<T>, ghost t: Tree<T>, ghost rest: Tree<T>,
      ghost m: map<Node<T>, Links<T>>)
    requires Distinct(t) && m.Keys == Nodes(t) && Shape(t, m)
    requires b in Nodes(t) && b != Root(t) && p == ParentIn(t, b)
    requires Represents(rep, rest) && Nodes(rest) == Nodes(Subtree(t, b)) - {b}
    requires rep != null ==> rep.parent == p
    requires forall o :: o in Nodes(t) - Nodes(Subtree(t, b)) ==> Links(o.parent, o.left, o.right) == m[o]
    modifies p`left, p`right
    ensures Represents(Root(t), Replaced(t, b, rest))
    ensures if old(p.left) == b then p.left == rep else p.right == rep
  {
    ghost var ml := Picture(Nodes(rest));
    if p.left == b {
      p.left := rep;
    } else {
      p.right := rep;
    }
    ghost var w := Picture(Nodes(t));
    ShapeFrame(rest, ml, w);
    Splice(t, b, rest, m, w);
    ShapeFrame(Replaced(t, b, rest), w, Picture(Nodes(Replaced(t, b, rest))));
  }

  /** The children of b become one heap, whose root gets the parent p. */
  method MergeChildren<T>(b: Node<T>, p: Node?<T>, comp: (T, T) -> int, ghost s: Tree<T>)
    returns (rep: Node?<T>, ghost calls: nat)
    requires Represents(b, s)
    modifies Nodes(s) - {b}
    ensures Represents(rep, Merged(s.left, s.right, comp)) && Nodes(Merged(s.left, s.right, comp)) == Nodes(s) - {b}
    ensures rep != null ==> rep.parent == p
    ensures rep == Upper(b.left, b.right, comp)
    ensures calls == Calls(s.left, s.right, comp)
  {
    Children(s);
    rep, calls := Merge(b.left, b.right, comp, s.left, s.right);
    SetParent(rep, p, Merged(s.left, s.right, comp));
  }

  method Remove<T>(a: Node<T>, b: Node<T>, comp: (T, T) -> int, ghost t: Tree<T>)
    returns (h: Node?<T>, ghost calls: nat)
    requires Represents(a, t) && a.parent == null && b in Nodes(t)
    modifies Nodes(t)
    ensures Represents(h, Removed(t, b, comp))
    ensures h != null ==> h.parent == null
    ensures var rep, p := Upper(old(b.left), old(b.right), comp), old(b.parent);
      if p == null then b == a && h == rep
      else b != a && h == a && if old(p.left) == b then p.left == rep else p.right == rep
    ensures calls == Calls(Subtree(t, b).left, Subtree(t, b).right, comp)
  {
    ghost var m, s := Picture(Nodes(t)), Subtree(t, b);
    Member(t, b);
    var p := b.parent;
    var rep;
    rep, calls := MergeChildren(b, p, comp, s);
    ghost var rest := Merged(s.left, s.right, comp);
    if p != null {
      Relink(p, b, rep, t, rest, m);
      return a, calls;
    } else {
      return rep, calls;
    }
  }
}
