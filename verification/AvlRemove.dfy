/** What removal in structure/CAvl_impl.h rests on: exchanging the places of two entries renames
    them in the tree, and the entry to exchange with is at the end of a path of right turns. */
module AvlRemove {
  import opened Wrappers
  import opened AvlTree
  import opened AvlBalance
  import opened AvlSums

  // ----- the places of two entries exchanged -----

  function Swap(a: Link, b: Link, x: Link): Link {
    if x == a then b else if x == b then a else x
  }

  function Rename(a: Link, b: Link, t: Tree): Tree {
    match t
    case Leaf => Leaf
    case Node(id, l, r) => Node(Swap(a, b, id), Rename(a, b, l), Rename(a, b, r))
  }

  lemma {:induction false} RenameElsewhere(a: Link, b: Link, t: Tree)
    requires Without(t, a, b, b)
    ensures Rename(a, b, t) == t
  {
    if t.Node? {
      assert t.id in Inorder(t);
      RenameElsewhere(a, b, t.left);
      RenameElsewhere(a, b, t.right);
    }
  }

  lemma {:induction false} RenamePlug(a: Link, b: Link, ctx: Context, t: Tree)
    requires !InContext(ctx, a) && !InContext(ctx, b)
    ensures Rename(a, b, Plug(ctx, t)) == Plug(ctx, Rename(a, b, t))
  {
    match ctx
    case Top =>
    case Step(id, side, s, up) =>
      assert InContext(ctx, id);
      assert forall x | x in Inorder(s) || InContext(up, x) :: InContext(ctx, x);
      RenameElsewhere(a, b, s);
      RenamePlug(a, b, up, Make(id, side, t, s));
  }

  lemma {:induction false} RenameInorder(a: Link, b: Link, t: Tree)
    ensures |Inorder(Rename(a, b, t))| == |Inorder(t)|
    ensures forall i | 0 <= i < |Inorder(t)| :: Inorder(Rename(a, b, t))[i] == Swap(a, b, Inorder(t)[i])
  {
    if t.Node? {
      RenameInorder(a, b, t.left);
      RenameInorder(a, b, t.right);
    }
  }

  lemma RenameDistinct(a: Link, b: Link, t: Tree)
    requires Distinct(Inorder(t))
    ensures Distinct(Inorder(Rename(a, b, t)))
  {
    var s, s' := Inorder(t), Inorder(Rename(a, b, t));
    RenameInorder(a, b, t);
    DistinctIndices(s);
    IndicesDistinct(s');
  }

  /** The links of x, before, are those of its counterpart, after, both sides up to renaming. */
  ghost predicate Conjugated(m: Pointers, m': Pointers, a: Link, b: Link, x: Link) {
    var y := Swap(a, b, x);
    && m.Has(x) && m'.Has(y)
    && m'.child0[y] == Swap(a, b, m.child0[x]) && m'.child1[y] == Swap(a, b, m.child1[x])
    && m'.parent[y] == Swap(a, b, m.parent[x])
  }

  lemma {:induction false} LinksRename(m: Pointers, m': Pointers, a: Link, b: Link, t: Tree, link: Link, up: Link)
    requires Links(m, t, link, up) && a != NULL && b != NULL
    requires forall x | x in Inorder(t) :: Conjugated(m, m', a, b, x)
    ensures Links(m', Rename(a, b, t), Swap(a, b, link), Swap(a, b, up))
  {
    match t
    case Leaf =>
    case Node(id, l, r) =>
      assert id in Inorder(t) && Conjugated(m, m', a, b, id);
      LinksRename(m, m', a, b, l, m.child0[id], id);
      LinksRename(m, m', a, b, r, m.child1[id], id);
  }

  ghost predicate Exchanged<A>(s: seq<A>, s': seq<A>, a: Link, b: Link)
    requires 0 <= a < |s| && 0 <= b < |s|
  {
    |s'| == |s| && s'[a] == s[b] && s'[b] == s[a] && forall x | 0 <= x < |s| && x != a && x != b :: s'[x] == s[x]
  }

  lemma {:induction false} BalancedRename(s: seq<int>, s': seq<int>, a: Link, b: Link, t: Tree)
    requires 0 <= a < |s| && 0 <= b < |s| && Exchanged(s, s', a, b) && Balanced(s, t)
    ensures Balanced(s', Rename(a, b, t)) && Height(Rename(a, b, t)) == Height(t)
  {
    if t.Node? {
      BalancedRename(s, s', a, b, t.left);
      BalancedRename(s, s', a, b, t.right);
    }
  }

  lemma {:induction false} CountedRename(s: seq<nat>, s': seq<nat>, a: Link, b: Link, t: Tree)
    requires 0 <= a < |s| && 0 <= b < |s| && Exchanged(s, s', a, b) && Summed(PLUS, ONE, s, t)
    ensures Summed(PLUS, ONE, s', Rename(a, b, t)) && TreeSum(PLUS, ONE, Rename(a, b, t)) == TreeSum(PLUS, ONE, t)
  {
    if t.Node? {
      CountedRename(s, s', a, b, t.left);
      CountedRename(s, s', a, b, t.right);
    }
  }

  // ----- neighbouring entries point at each other -----

  ghost predicate Knit(m: Pointers, x: Link) {
    && m.Has(x)
    && (m.child0[x] != NULL ==> m.Has(m.child0[x]) && m.parent[m.child0[x]] == x && m.child0[x] != m.child1[x])
    && (m.child1[x] != NULL ==> m.Has(m.child1[x]) && m.parent[m.child1[x]] == x)
    && (m.parent[x] != NULL ==> IsChild(m, x, m.parent[x]))
  }

  predicate IsChild(m: Pointers, x: Link, up: Link) {
    m.Has(up) && (m.child0[up] == x || m.child1[up] == x)
  }

  lemma {:induction false} LinksKnit(m: Pointers, t: Tree, link: Link, up: Link, x: Link)
    requires Links(m, t, link, up) && Distinct(Inorder(t)) && x in Inorder(t)
    requires up != NULL ==> IsChild(m, link, up)
    ensures Knit(m, x)
  {
    DistinctNode(t);
    assert t.left.Node? ==> t.left.id in Inorder(t.left);
    assert t.right.Node? ==> t.right.id in Inorder(t.right);
    if x in Inorder(t.left) {
      LinksKnit(m, t.left, m.child0[link], link, x);
    } else if x in Inorder(t.right) {
      LinksKnit(m, t.right, m.child1[link], link, x);
    }
  }

  // ----- contexts put together -----

  /** The hole of inner, where inner fills the hole of outer. */
  function Append(inner: Context, outer: Context): Context {
    match inner
    case Top => outer
    case Step(id, side, s, up) => Step(id, side, s, Append(up, outer))
  }

  lemma {:induction false} AppendPlug(inner: Context, outer: Context, t: Tree)
    ensures Plug(Append(inner, outer), t) == Plug(outer, Plug(inner, t))
  {
    match inner
    case Top =>
    case Step(id, side, s, up) => AppendPlug(up, outer, Make(id, side, t, s));
  }

  lemma {:induction false} AppendInorder(inner: Context, outer: Context)
    ensures Before(Append(inner, outer)) == Before(outer) + Before(inner)
    ensures After(Append(inner, outer)) == After(inner) + After(outer)
  {
    match inner
    case Top =>
    case Step(id, side, s, up) =>
      AppendInorder(up, outer);
      if side {
        Concat(Before(outer), Before(up), Inorder(s) + [id]);
      } else {
        Concat([id] + Inorder(s), After(up), After(outer));
      }
  }

  lemma {:induction false} AppendSiblings<A>(op: (A, A) -> A, value: Link -> A, sum: seq<A>, inner: Context, outer: Context)
    ensures SiblingsSummed(op, value, sum, Append(inner, outer))
       <==> SiblingsSummed(op, value, sum, inner) && SiblingsSummed(op, value, sum, outer)
  {
    if inner.Step? { AppendSiblings(op, value, sum, inner.up, outer); }
  }

  /** What exchanging an entry with the last one of its left subtree makes of the tree. */
  lemma ExchangeShape(node: Link, max: Link, ctx: Context, path: Context, ml: Tree, r: Tree)
    requires var t := Node(node, Plug(path, Node(max, ml, Leaf)), r);
      Distinct(Inorder(Plug(ctx, t)))
    ensures node != max && !InContext(ctx, node) && !InContext(ctx, max)
    ensures Rename(node, max, Plug(ctx, Node(node, Plug(path, Node(max, ml, Leaf)), r)))
         == Plug(Append(path, Step(max, false, r, ctx)), Node(node, ml, Leaf))
  {
    var low := Node(max, ml, Leaf);
    var l := Plug(path, low);
    var t := Node(node, l, r);
    DistinctPlug(ctx, t);
    DistinctNode(t);
    DistinctPlug(path, low);
    DistinctNode(low);
    InorderPlug(path, low);
    assert node in Inorder(t) && max in Inorder(low) && max in Inorder(l) && max in Inorder(t);
    assert forall x | x in Inorder(low) || InContext(path, x) :: x in Inorder(l);
    assert forall x | x in Inorder(ml) :: x in Inorder(low);
    RenamePlug(node, max, ctx, t);
    RenamePlug(node, max, path, low);
    RenameElsewhere(node, max, ml);
    RenameElsewhere(node, max, r);
    AppendPlug(path, Step(max, false, r, ctx), Node(node, ml, Leaf));
  }

  /** The exchanged entries' parents are neither of them, and differ. */
  lemma {:induction false} ExchangeParents(node: Link, max: Link, ctx: Context, path: Context, ml: Tree, r: Tree)
    requires Distinct(Inorder(Plug(ctx, Node(node, Plug(path, Node(max, ml, Leaf)), r))))
    ensures var t := Node(node, Plug(path, Node(max, ml, Leaf)), r);
      var ep := ParentLink(Append(path, Step(node, false, r, ctx)));
      && node != max && ep != max && ep in Inorder(Plug(ctx, t))
      && (ctx.Step? ==> ctx.id != node && ctx.id != max && ctx.id != ep && ctx.id in Inorder(Plug(ctx, t)))
  {
    var t := Node(node, Plug(path, Node(max, ml, Leaf)), r);
    var ep := ParentLink(Append(path, Step(node, false, r, ctx)));
    ExchangeShape(node, max, ctx, path, ml, r);
    LowerParent(node, max, path, ml, r, ctx);
    DistinctPlug(ctx, t);
    InorderPlug(ctx, t);
    if ctx.Step? {
      assert InContext(ctx, ctx.id);
    }
  }

  lemma {:induction false} LowerParent(node: Link, max: Link, path: Context, ml: Tree, r: Tree, ctx: Context)
    requires Distinct(Inorder(Plug(ctx, Node(node, Plug(path, Node(max, ml, Leaf)), r)))) && node != max
    ensures var ep := ParentLink(Append(path, Step(node, false, r, ctx)));
      ep != max && ep in Inorder(Node(node, Plug(path, Node(max, ml, Leaf)), r))
  {
    var low := Node(max, ml, Leaf);
    var l := Plug(path, low);
    var t := Node(node, l, r);
    DistinctPlug(ctx, t);
    DistinctNode(t);
    assert max in Inorder(low);
    if path.Step? {
      PathTop(path, low);
      assert path.id in Inorder(l) && path.id in Inorder(t);
    } else {
      assert node in Inorder(t);
    }
  }

  lemma {:induction false} PathTop(path: Context, low: Tree)
    requires path.Step? && Distinct(Inorder(Plug(path, low)))
    ensures path.id in Inorder(Plug(path, low)) && path.id !in Inorder(low)
  {
    DistinctPlug(path, low);
    InorderPlug(path, low);
    assert InContext(path, path.id);
  }

  /** ... and of the in-order sequence, once the exchanged entry is cut out. */
  lemma ExchangeInorder(node: Link, max: Link, ctx: Context, path: Context, ml: Tree, r: Tree)
    requires After(path) == []
    ensures var c := Append(path, Step(max, false, r, ctx));
      && Before(c) + Inorder(ml) + After(c)
      == Before(ctx) + Inorder(Plug(path, Node(max, ml, Leaf))) + Inorder(r) + After(ctx)
  {
    AppendInorder(path, Step(max, false, r, ctx));
    InorderPlug(path, Node(max, ml, Leaf));
    assert Inorder(Node(max, ml, Leaf)) == Inorder(ml) + [max];
    Regroup(Before(ctx), Before(path), Inorder(ml), [max], Inorder(r), After(ctx));
  }

  lemma Regroup(bc: seq<Link>, bp: seq<Link>, im: seq<Link>, max: seq<Link>, ir: seq<Link>, ac: seq<Link>)
    ensures (bc + bp) + im + ([] + (max + ir + ac)) == bc + (bp + (im + max) + []) + ir + ac
  {
    assert (bc + bp) + im == bc + (bp + im);
    assert bc + (bp + im) + (max + ir + ac) == bc + (bp + im + max) + ir + ac;
    assert bp + (im + max) + [] == bp + im + max;
  }

  // ----- the assignments of CAvl_swap_for_remove, as functions -----

  /** All links of x may be followed. */
  predicate Linkable(m: Pointers, x: Link) {
    m.Has(x) && (m.child0[x] != NULL ==> m.Has(m.child0[x])) && (m.child1[x] != NULL ==> m.Has(m.child1[x]))
  }

  /** *link = to; if (to != null) parent(to) = up */
  function Adopt(m: Pointers, up: Link, side: bool, to: Link): (r: Pointers)
    requires m.Has(up) && (to != NULL ==> m.Has(to))
    ensures |r.child0| == |m.child0| && |r.child1| == |m.child1| && |r.parent| == |m.parent|
  {
    var m1 := m.SetChild(up, side, to);
    if to != NULL then m1.SetParent(to, up) else m1
  }

  /** e takes the place that the entry gone has below p. */
  function Replant(m: Pointers, e: Link, gone: Link, p: Link): (r: Pointers)
    requires m.Has(e) && (p != NULL ==> m.Has(p))
    ensures |r.child0| == |m.child0| && |r.child1| == |m.child1| && |r.parent| == |m.parent|
  {
    var m1 := m.SetParent(e, p);
    if p != NULL then m1.SetChild(p, gone == m1.child1[p], e) else m1
  }

  ghost predicate Replanted(m: Pointers, m': Pointers, e: Link, gone: Link, p: Link, x: Link)
    requires m.Has(x)
  {
    && m'.Has(x)
    && m'.child0[x] == (if x == p && m.child0[x] == gone then e else m.child0[x])
    && m'.child1[x] == (if x == p && m.child1[x] == gone then e else m.child1[x])
    && m'.parent[x] == (if x == e then p else m.parent[x])
  }

  ghost predicate OnlyChild(m: Pointers, gone: Link, p: Link) {
    p != NULL ==> IsChild(m, gone, p) && (m.child1[p] == gone ==> m.child0[p] != gone)
  }

  lemma ReplantAt(m: Pointers, e: Link, gone: Link, p: Link, x: Link)
    requires m.Has(e) && m.Has(x) && (p != NULL ==> m.Has(p)) && OnlyChild(m, gone, p)
    ensures Replanted(m, Replant(m, e, gone, p), e, gone, p, x)
  {
  }

  /** The first block where the entries are not parent and child: parents and the links down. */
  function SwapParents(m: Pointers, node: Link, enode: Link, np: Link, ep: Link): (r: Pointers)
    requires m.Has(node) && m.Has(enode) && m.Has(ep) && (np != NULL ==> m.Has(np))
    ensures |r.child0| == |m.child0| && |r.child1| == |m.child1| && |r.parent| == |m.parent|
  {
    Replant(Replant(m, node, enode, ep), enode, node, np)
  }

  /** The other two blocks: left children, right children. */
  function SwapChildren(m: Pointers, node: Link, enode: Link, side: bool): (r: Pointers)
    requires Linkable(m, node) && Linkable(m, enode)
    ensures |r.child0| == |m.child0| && |r.child1| == |m.child1| && |r.parent| == |m.parent|
  {
    Adopt(Adopt(m, node, side, m.At(enode, side)), enode, side, m.At(node, side))
  }

  ghost predicate ParentsSwapped(m: Pointers, m': Pointers, node: Link, enode: Link, x: Link)
    requires m.Has(node) && m.Has(enode) && m.Has(x)
  {
    && m'.Has(x)
    && m'.parent[x] == (if x == node then m.parent[enode] else if x == enode then m.parent[node] else m.parent[x])
    && m'.child0[x] == Swap(node, enode, m.child0[x]) && m'.child1[x] == Swap(node, enode, m.child1[x])
  }

  lemma ParentsReady(m: Pointers, m1: Pointers, node: Link, enode: Link, np: Link, ep: Link)
    requires Knit(m, node) && Knit(m, enode) && node != enode && (np != NULL ==> Knit(m, np))
    requires m.parent[node] == np && m.parent[enode] == ep && np != node && np != enode && ep != np
    requires np != NULL ==> Replanted(m, m1, node, enode, ep, np)
    ensures OnlyChild(m1, node, np)
  {
  }

  lemma ParentsMeet(m: Pointers, m1: Pointers, m2: Pointers, node: Link, enode: Link, np: Link, ep: Link, x: Link)
    requires Knit(m, node) && Knit(m, enode) && Knit(m, x) && node != enode
    requires m.parent[node] == np && m.parent[enode] == ep && np != node && np != enode
    requires ep != NULL && ep != node && ep != enode && ep != np
    requires Replanted(m, m1, node, enode, ep, x) && Replanted(m1, m2, enode, node, np, x)
    ensures ParentsSwapped(m, m2, node, enode, x)
  {
  }

  lemma SwapParentsAt(m: Pointers, node: Link, enode: Link, np: Link, ep: Link, x: Link)
    requires Knit(m, node) && Knit(m, enode) && Knit(m, x) && node != enode && (np != NULL ==> Knit(m, np))
    requires Knit(m, ep)
    requires m.parent[node] == np && m.parent[enode] == ep && np != node && np != enode
    requires ep != NULL && ep != node && ep != enode && ep != np
    ensures ParentsSwapped(m, SwapParents(m, node, enode, np, ep), node, enode, x)
  {
    var m1 := Replant(m, node, enode, ep);
    ReplantAt(m, node, enode, ep, x);
    if np != NULL { ReplantAt(m, node, enode, ep, np); }
    ParentsReady(m, m1, node, enode, np, ep);
    ReplantAt(m1, enode, node, np, x);
    ParentsMeet(m, m1, SwapParents(m, node, enode, np, ep), node, enode, np, ep, x);
  }

  lemma SwapChildrenAt(m: Pointers, node: Link, enode: Link, side: bool, x: Link)
    requires Linkable(m, node) && Linkable(m, enode) && m.Has(x) && node != enode
    requires m.At(node, side) != node && m.At(node, side) != enode
    requires m.At(enode, side) != node && m.At(enode, side) != enode
    requires m.At(node, side) != NULL ==> m.At(node, side) != m.At(enode, side)
    ensures var m' := SwapChildren(m, node, enode, side);
      && m'.At(x, side) == m.At(Swap(node, enode, x), side) && m'.At(x, !side) == m.At(x, !side)
      && m'.parent[x] == (if x == m.At(node, side) then enode else if x == m.At(enode, side) then node else m.parent[x])
  {
  }

  predicate Apart(m: Pointers, node: Link, enode: Link, side: bool)
    requires m.Has(node) && m.Has(enode)
  {
    && m.At(node, side) != node && m.At(node, side) != enode
    && m.At(enode, side) != node && m.At(enode, side) != enode
    && (m.At(node, side) != NULL ==> m.At(node, side) != m.At(enode, side))
  }

  function SwapBothChildren(m: Pointers, node: Link, enode: Link): (r: Pointers)
    requires Linkable(m, node) && Linkable(m, enode) && node != enode
    requires Apart(m, node, enode, false) && Apart(m, node, enode, true)
  {
    SwapChildrenAt(m, node, enode, false, node);
    SwapChildrenAt(m, node, enode, false, enode);
    SwapChildren(SwapChildren(m, node, enode, false), node, enode, true)
  }

  ghost predicate ChildrenSwapped(m: Pointers, m': Pointers, node: Link, enode: Link, x: Link)
    requires m.Has(node) && m.Has(enode) && m.Has(x)
  {
    && m'.Has(x)
    && m'.child0[x] == m.child0[Swap(node, enode, x)] && m'.child1[x] == m.child1[Swap(node, enode, x)]
    && m'.parent[x] == (if x == m.child1[node] then enode else if x == m.child1[enode] then node
                        else if x == m.child0[node] then enode else if x == m.child0[enode] then node
                        else m.parent[x])
  }

  lemma SwapBothAt(m: Pointers, node: Link, enode: Link, x: Link)
    requires Linkable(m, node) && Linkable(m, enode) && node != enode && m.Has(x)
    requires Apart(m, node, enode, false) && Apart(m, node, enode, true)
    ensures ChildrenSwapped(m, SwapBothChildren(m, node, enode), node, enode, x)
  {
    var m1 := SwapChildren(m, node, enode, false);
    SwapChildrenAt(m, node, enode, false, node);
    SwapChildrenAt(m, node, enode, false, enode);
    SwapChildrenAt(m, node, enode, false, x);
    SwapChildrenAt(m1, node, enode, true, x);
  }

  lemma SwapFarApart(m: Pointers, m1: Pointers, node: Link, enode: Link)
    requires Knit(m, node) && Knit(m, enode) && node != enode
    requires m.parent[node] != node && m.parent[node] != enode && m.parent[enode] != node && m.parent[enode] != enode
    requires ParentsSwapped(m, m1, node, enode, node) && ParentsSwapped(m, m1, node, enode, enode)
    requires |m1.child0| == |m.child0| && |m1.child1| == |m.child1| && |m1.parent| == |m.parent|
    ensures Linkable(m1, node) && Linkable(m1, enode) && Apart(m1, node, enode, false) && Apart(m1, node, enode, true)
    ensures m1.child0[node] == m.child0[node] && m1.child1[node] == m.child1[node]
    ensures m1.child0[enode] == m.child0[enode] && m1.child1[enode] == m.child1[enode]
  {
    ChildrenApart(m, node, enode);
  }

  lemma SwapFarMeets(m: Pointers, m1: Pointers, m2: Pointers, node: Link, enode: Link, x: Link)
    requires Knit(m, node) && Knit(m, enode) && Knit(m, x) && node != enode
    requires m.parent[node] != node && m.parent[node] != enode && m.parent[enode] != node && m.parent[enode] != enode
    requires m1.Has(node) && m1.Has(enode)
    requires m1.child0[node] == m.child0[node] && m1.child1[node] == m.child1[node]
    requires m1.child0[enode] == m.child0[enode] && m1.child1[enode] == m.child1[enode]
    requires var y := Swap(node, enode, x);
      ParentsSwapped(m, m1, node, enode, x) && ParentsSwapped(m, m1, node, enode, y) && ChildrenSwapped(m1, m2, node, enode, y)
    ensures Conjugated(m, m2, node, enode, x)
  {
    ChildrenApart(m, node, enode);
  }

  lemma SwapFarConjugates(m: Pointers, node: Link, enode: Link, np: Link, ep: Link, x: Link)
    requires Knit(m, node) && Knit(m, enode) && Knit(m, x) && Knit(m, ep) && (np != NULL ==> Knit(m, np))
    requires node != enode
    requires m.parent[node] == np && m.parent[enode] == ep && np != node && np != enode
    requires ep != NULL && ep != node && ep != enode && ep != np
    ensures var m1 := SwapParents(m, node, enode, np, ep);
      && Linkable(m1, node) && Linkable(m1, enode) && Apart(m1, node, enode, false) && Apart(m1, node, enode, true)
      && Conjugated(m, SwapBothChildren(m1, node, enode), node, enode, x)
  {
    var m1 := SwapParents(m, node, enode, np, ep);
    SwapParentsAt(m, node, enode, np, ep, node);
    SwapParentsAt(m, node, enode, np, ep, enode);
    SwapParentsAt(m, node, enode, np, ep, x);
    SwapFarApart(m, m1, node, enode);
    SwapBothAt(m1, node, enode, Swap(node, enode, x));
    SwapFarMeets(m, m1, SwapBothChildren(m1, node, enode), node, enode, x);
  }

  lemma ChildrenApart(m: Pointers, node: Link, enode: Link)
    requires Knit(m, node) && Knit(m, enode) && node != enode
    requires m.parent[node] != node && m.parent[node] != enode && m.parent[enode] != node && m.parent[enode] != enode
    ensures Apart(m, node, enode, false) && Apart(m, node, enode, true)
  {
  }

  /** Where the entries are parent and child: node takes over enode's children;
      enode then takes node's place ... */
  function TakeChildren(m: Pointers, node: Link, enode: Link): (r: Pointers)
    requires Linkable(m, node) && Linkable(m, enode)
    ensures |r.child0| == |m.child0| && |r.child1| == |m.child1| && |r.parent| == |m.parent|
  {
    Adopt(Adopt(m, node, false, m.child0[enode]), node, true, m.child1[enode])
  }

  /** ... and node and node's other child c go below it. */
  function TakeBelow(m: Pointers, node: Link, enode: Link, side: bool, c: Link): (r: Pointers)
    requires m.Has(node) && m.Has(enode) && (c != NULL ==> m.Has(c))
    ensures |r.child0| == |m.child0| && |r.child1| == |m.child1| && |r.parent| == |m.parent|
  {
    var m1 := m.SetChild(enode, side, node);
    var m2 := m1.SetParent(node, enode);
    Adopt(m2, enode, !side, c)
  }

  ghost predicate ChildrenTaken(m: Pointers, m': Pointers, node: Link, enode: Link, x: Link)
    requires m.Has(enode) && m.Has(x)
  {
    && m'.Has(x)
    && m'.child0[x] == m.child0[if x == node then enode else x]
    && m'.child1[x] == m.child1[if x == node then enode else x]
    && m'.parent[x] == if x == m.child0[enode] || x == m.child1[enode] then node else m.parent[x]
  }

  ghost predicate BelowTaken(m: Pointers, m': Pointers, node: Link, enode: Link, side: bool, c: Link, x: Link)
    requires m.Has(x)
  {
    && m'.Has(x) && m'.Has(enode)
    && (x != enode ==> m'.child0[x] == m.child0[x] && m'.child1[x] == m.child1[x])
    && m'.At(enode, side) == node && m'.At(enode, !side) == c
    && m'.parent[x] == (if x == node || x == c then enode else m.parent[x])
  }

  lemma TakeChildrenAt(m: Pointers, node: Link, enode: Link, x: Link)
    requires Knit(m, enode) && m.Has(node) && m.Has(x) && Linkable(m, node) && node != enode
    requires m.parent[enode] == node && m.parent[node] != enode
    ensures ChildrenTaken(m, TakeChildren(m, node, enode), node, enode, x)
  {
  }

  lemma TakeBelowAt(m: Pointers, node: Link, enode: Link, side: bool, c: Link, x: Link)
    requires m.Has(node) && m.Has(enode) && (c != NULL ==> m.Has(c)) && m.Has(x)
    requires node != enode && c != node && c != enode
    ensures BelowTaken(m, TakeBelow(m, node, enode, side, c), node, enode, side, c, x)
  {
  }

  function SwapNearUpper(m: Pointers, node: Link, enode: Link, np: Link): (r: Pointers)
    requires Linkable(m, node) && Linkable(m, enode) && (np != NULL ==> m.Has(np))
    ensures |r.child0| == |m.child0| && |r.child1| == |m.child1| && |r.parent| == |m.parent|
  {
    Replant(TakeChildren(m, node, enode), enode, node, np)
  }

  ghost predicate UpperSwapped(m: Pointers, m': Pointers, node: Link, enode: Link, np: Link, x: Link)
    requires m.Has(node) && m.Has(enode) && m.Has(x)
  {
    && m'.Has(x)
    && (x != node && x != enode ==>
          m'.child0[x] == Swap(node, enode, m.child0[x]) && m'.child1[x] == Swap(node, enode, m.child1[x]))
    && (x == node ==> m'.child0[x] == m.child0[enode] && m'.child1[x] == m.child1[enode])
    && m'.parent[x] == (if x == enode then np else if m.parent[x] == enode then node else m.parent[x])
  }

  lemma UpperReady(m: Pointers, m1: Pointers, node: Link, enode: Link, np: Link)
    requires Knit(m, node) && Knit(m, enode) && (np != NULL ==> Knit(m, np)) && node != enode
    requires m.parent[node] == np && m.parent[enode] == node && np != node && np != enode
    requires np != NULL ==> ChildrenTaken(m, m1, node, enode, np)
    ensures OnlyChild(m1, node, np)
  {
  }

  lemma UpperMeets(m: Pointers, m1: Pointers, m2: Pointers, node: Link, enode: Link, np: Link, x: Link)
    requires Knit(m, node) && Knit(m, enode) && Knit(m, x) && node != enode
    requires m.parent[node] == np && m.parent[enode] == node && np != node && np != enode
    requires ChildrenTaken(m, m1, node, enode, x) && Replanted(m1, m2, enode, node, np, x)
    ensures UpperSwapped(m, m2, node, enode, np, x)
  {
  }

  lemma SwapNearUpperAt(m: Pointers, node: Link, enode: Link, np: Link, x: Link)
    requires Knit(m, node) && Knit(m, enode) && Knit(m, x) && (np != NULL ==> Knit(m, np)) && node != enode
    requires m.parent[node] == np && m.parent[enode] == node && np != node && np != enode
    ensures UpperSwapped(m, SwapNearUpper(m, node, enode, np), node, enode, np, x)
  {
    var m1 := TakeChildren(m, node, enode);
    TakeChildrenAt(m, node, enode, x);
    if np != NULL { TakeChildrenAt(m, node, enode, np); }
    UpperReady(m, m1, node, enode, np);
    ReplantAt(m1, enode, node, np, x);
    UpperMeets(m, m1, SwapNearUpper(m, node, enode, np), node, enode, np, x);
  }

  lemma SwapNearMeets(m: Pointers, m2: Pointers, m3: Pointers, node: Link, enode: Link, np: Link, x: Link)
    requires Knit(m, node) && Knit(m, enode) && Knit(m, x) && node != enode
    requires m.parent[node] == np && m.parent[enode] == node && np != node && np != enode
    requires var y, side := Swap(node, enode, x), enode == m.child1[node];
      UpperSwapped(m, m2, node, enode, np, y) && BelowTaken(m2, m3, node, enode, side, m.At(node, !side), y)
    ensures Conjugated(m, m3, node, enode, x)
  {
  }

  lemma SwapNearConjugates(m: Pointers, m2: Pointers, node: Link, enode: Link, np: Link, x: Link)
    requires Knit(m, node) && Knit(m, enode) && Knit(m, x) && node != enode
    requires m.parent[node] == np && m.parent[enode] == node && np != node && np != enode
    requires |m2.child0| == |m.child0| && |m2.child1| == |m.child1| && |m2.parent| == |m.parent|
    requires UpperSwapped(m, m2, node, enode, np, Swap(node, enode, x))
    ensures var side := enode == m.child1[node];
      Conjugated(m, TakeBelow(m2, node, enode, side, m.At(node, !side)), node, enode, x)
  {
    var side, y := enode == m.child1[node], Swap(node, enode, x);
    TakeBelowAt(m2, node, enode, side, m.At(node, !side), y);
    SwapNearMeets(m, m2, TakeBelow(m2, node, enode, side, m.At(node, !side)), node, enode, np, x);
  }

  // ----- the assignments of CAvl_replace_subtree_fix_assoc -----

  function ReplacePointers(m: Pointers, dest: Link, n: Link, p: Link): (r: Pointers)
    requires m.Has(dest) && (n != NULL ==> m.Has(n)) && (p != NULL ==> m.Has(p))
    ensures |r.child0| == |m.child0| && |r.child1| == |m.child1| && |r.parent| == |m.parent|
  {
    var m1 := if p != NULL then m.SetChild(p, dest == m.child1[p], n) else m;
    if n != NULL then m1.SetParent(n, m1.parent[dest]) else m1
  }

  ghost predicate Replaced(m: Pointers, m': Pointers, n: Link, ctx: Context) {
    && (forall x | x != n && x != ParentLink(ctx) :: Agree(m, m', x))
    && (ctx.Step? ==>
          && m.Has(ctx.id) && m'.Has(ctx.id) && m'.At(ctx.id, ctx.side) == n
          && m'.At(ctx.id, !ctx.side) == m.At(ctx.id, !ctx.side) && m'.parent[ctx.id] == m.parent[ctx.id])
    && (n != NULL ==> SameChildren(m, m', n) && m'.parent[n] == ParentLink(ctx))
  }

  lemma ReplaceIs(m: Pointers, dest: Link, n: Link, ctx: Context)
    requires m.Has(dest) && m.parent[dest] == ParentLink(ctx)
    requires n != NULL ==> m.Has(n) && n != ParentLink(ctx)
    requires ctx.Step? ==> m.Has(ctx.id) && (m.child1[ctx.id] == dest) == ctx.side
    requires |m.child0| == |m.child1| == |m.parent|
    ensures ctx.Step? ==> ctx.id != NULL
    ensures Replaced(m, ReplacePointers(m, dest, n, ParentLink(ctx)), n, ctx)
  {
  }

  /** A subtree k and the context that it is about to be put into share no entry. */
  ghost predicate Separate(ctx: Context, k: Tree) {
    && Distinct(Inorder(k)) && Distinct(Before(ctx) + After(ctx)) && Distinct(Inorder(Plug(ctx, k)))
    && forall x | x in Inorder(k) :: !InContext(ctx, x)
  }

  lemma {:induction false} ChildSeparate(ctx: Context, t: Tree, side: bool)
    requires t.Node? && Distinct(Inorder(Plug(ctx, t)))
    ensures Separate(ctx, Child(t, side))
  {
    var k := Child(t, side);
    DistinctPlug(ctx, t);
    DistinctNode(t);
    ContextOfPlug(ctx, t);
    assert multiset(Inorder(t)) == multiset(Inorder(t.left)) + multiset{t.id} + multiset(Inorder(t.right));
    DistinctFill(ctx, t, k);
    assert forall x | x in Inorder(k) :: x in Inorder(t);
  }

  lemma {:induction false} ReplaceApart(m: Pointers, dest: Link, ctx: Context, k: Tree)
    requires Links(m, k, RootLink(k), dest) && Separate(ctx, k)
    ensures k.Node? ==> m.Has(k.id) && k.id != NULL && k.id != ParentLink(ctx)
  {
    assert k.Node? ==> k.id in Inorder(k);
    assert ctx.Step? ==> InContext(ctx, ctx.id);
  }

  lemma {:induction false} ReplaceLinks(m: Pointers, m': Pointers, dest: Link, ctx: Context, k: Tree, root: Link, root': Link)
    requires Links(m, k, RootLink(k), dest) && ContextLinks(m, ctx, dest, root) && Separate(ctx, k)
    requires Replaced(m, m', RootLink(k), ctx)
    requires root' == if ctx.Top? then RootLink(k) else root
    ensures Links(m', k, RootLink(k), ParentLink(ctx)) && ContextLinks(m', ctx, RootLink(k), root')
  {
    var n := RootLink(k);
    assert k.Node? ==> n in Inorder(k);
    assert ctx.Step? ==> InContext(ctx, ctx.id);
    forall x | InContext(ctx, x) && x != ParentLink(ctx) ensures Agree(m, m', x) {
      if x == n { assert !m.Has(NULL); }
    }
    ContextLinksRefill(m, m', ctx, dest, n, root, root');
    LinksReparent(m, m', k, n, dest, ParentLink(ctx));
  }
}
