/** The trees behind structure/CAvl_impl.h as values: shapes, one-hole contexts, and what it
    means for the link, balance, count and assoc members of the entries to describe a shape.

    Entries are named by their links, indices into the arena the links dereference into.
    A side is a child index: false is link[0], true is link[1]. */
module AvlTree {
  import opened Wrappers

  type Link = int
  const NULL: Link := -1

  datatype Tree = Leaf | Node(id: Link, left: Tree, right: Tree)

  /** A tree with a hole: the hole's parent is id, the hole is its child on side. */
  datatype Context = Top | Step(id: Link, side: bool, sibling: Tree, up: Context)

  /** The node id with t as its child on side and s on the other. */
  function Make(id: Link, side: bool, t: Tree, s: Tree): Tree {
    if side then Node(id, s, t) else Node(id, t, s)
  }

  function Child(t: Tree, side: bool): Tree
    requires t.Node?
  {
    if side then t.right else t.left
  }

  function Plug(ctx: Context, t: Tree): Tree {
    match ctx
    case Top => t
    case Step(id, side, sibling, up) => Plug(up, Make(id, side, t, sibling))
  }

  // ----- the in-order sequence -----

  function Inorder(t: Tree): seq<Link> {
    match t
    case Leaf => []
    case Node(id, l, r) => Inorder(l) + [id] + Inorder(r)
  }

  lemma InorderSingle(id: Link)
    ensures Inorder(Node(id, Leaf, Leaf)) == [id]
  {
  }

  function Before(ctx: Context): seq<Link> {
    match ctx
    case Top => []
    case Step(id, side, s, up) => if side then Before(up) + (Inorder(s) + [id]) else Before(up)
  }

  function After(ctx: Context): seq<Link> {
    match ctx
    case Top => []
    case Step(id, side, s, up) => if side then After(up) else ([id] + Inorder(s)) + After(up)
  }

  lemma {:induction false} InorderPlug(ctx: Context, t: Tree)
    ensures Inorder(Plug(ctx, t)) == Before(ctx) + Inorder(t) + After(ctx)
  {
    match ctx
    case Top =>
    case Step(id, side, s, up) =>
      InorderPlug(up, Make(id, side, t, s));
      var b, a, hole, rest := Before(up), After(up), Inorder(t), Inorder(s);
      if side {
        Concat(b, rest + [id], hole);
      } else {
        Concat(hole, [id], rest);
        Concat(b, hole, [id] + rest);
        Concat(b + hole, [id] + rest, a);
      }
  }

  lemma {:induction false} SameInorder(ctx: Context, t: Tree, t': Tree)
    requires Inorder(t) == Inorder(t')
    ensures Inorder(Plug(ctx, t)) == Inorder(Plug(ctx, t'))
  {
    InorderPlug(ctx, t);
    InorderPlug(ctx, t');
  }

  ghost predicate Increasing(key: Link -> int, s: seq<Link>) {
    forall i, j | 0 <= i < j < |s| :: key(s[i]) < key(s[j])
  }

  predicate AllBelow(key: Link -> int, s: seq<Link>, k: int) {
    forall x | x in s :: key(x) < k
  }

  predicate AllAbove(key: Link -> int, s: seq<Link>, k: int) {
    forall x | x in s :: k < key(x)
  }

  /** The first n things are ordered by less, up to ties: what a comparison must give a search tree.
      The entries of a memory are such things, and with them any key that is searched for. */
  ghost predicate WeakOrder(n: nat, less: (nat, nat) -> bool) {
    && (forall a: nat, b: nat | a < n && b < n :: less(a, b) ==> !less(b, a))
    && (forall a: nat, b: nat, c: nat | a < n && b < n && c < n :: less(a, b) ==> less(a, c) || less(c, b))
  }

  ghost function Smaller(n: nat, less: (nat, nat) -> bool, a: nat): set<nat> {
    set m: nat | m < n && less(m, a)
  }

  /** Integer keys are no restriction: any such comparison is that of some integers. */
  lemma KeysSuffice(n: nat, less: (nat, nat) -> bool) returns (key: seq<int>)
    requires WeakOrder(n, less)
    ensures |key| == n && forall a: nat, b: nat | a < n && b < n :: less(a, b) <==> key[a] < key[b]
  {
    key := seq(n, a requires 0 <= a < n => |Smaller(n, less, a)|);
    forall a: nat, b: nat | a < n && b < n ensures less(a, b) <==> key[a] < key[b] {
      RankOrders(n, less, a, b);
    }
  }

  lemma RankOrders(n: nat, less: (nat, nat) -> bool, a: nat, b: nat)
    requires WeakOrder(n, less) && a < n && b < n
    ensures less(a, b) <==> |Smaller(n, less, a)| < |Smaller(n, less, b)|
  {
    var x, y := Smaller(n, less, a), Smaller(n, less, b);
    if less(a, b) {
      assert a !in x && x + {a} <= y;
      SubsetSize(x + {a}, y);
    } else {
      assert y <= x;
      SubsetSize(y, x);
    }
  }

  lemma SubsetSize(s: set<nat>, t: set<nat>)
    requires s <= t
    ensures |s| <= |t|
  {
    assert t == s + (t - s) && s !! (t - s);
  }

  lemma IncreasingConcat(key: Link -> int, a: seq<Link>, b: seq<Link>)
    requires Increasing(key, a + b)
    ensures Increasing(key, a) && Increasing(key, b)
    ensures forall x | x in b :: AllBelow(key, a, key(x))
    ensures forall x | x in a :: AllAbove(key, b, key(x))
  {
    var s := a + b;
    forall i, j | 0 <= i < j < |a| ensures key(a[i]) < key(a[j]) {
      assert s[i] == a[i] && s[j] == a[j];
    }
    forall i, j | 0 <= i < j < |b| ensures key(b[i]) < key(b[j]) {
      assert s[|a| + i] == b[i] && s[|a| + j] == b[j];
    }
    forall x, y | x in b && y in a ensures key(y) < key(x) {
      var i :| 0 <= i < |a| && a[i] == y;
      var j :| 0 <= j < |b| && b[j] == x;
      assert s[i] == y && s[|a| + j] == x;
    }
  }

  lemma IncreasingInsert(key: Link -> int, a: seq<Link>, b: seq<Link>, x: Link)
    requires Increasing(key, a + b) && AllBelow(key, a, key(x)) && AllAbove(key, b, key(x))
    ensures Increasing(key, a + [x] + b)
  {
    var s, n := a + [x] + b, |a|;
    forall i, j | 0 <= i < j < |s| ensures key(s[i]) < key(s[j]) {
      var i', j' := if i > n then i - 1 else i, if j > n then j - 1 else j;
      if i == n {
        assert s[j] == b[j - n - 1];
      } else if j == n {
        assert s[i] == a[i];
      } else {
        assert s[i] == (a + b)[i'] && s[j] == (a + b)[j'];
      }
    }
  }

  /** What comparing with the entry at the top of the hole's subtree says about the rest of it. */
  lemma DescendBounds(key: Link -> int, ctx: Context, t: Tree)
    requires t.Node? && Increasing(key, Inorder(Plug(ctx, t)))
    ensures AllBelow(key, Inorder(t.left), key(t.id)) && AllAbove(key, Inorder(t.right), key(t.id))
  {
    InorderPlug(ctx, t);
    IncreasingConcat(key, Before(ctx) + Inorder(t), After(ctx));
    IncreasingConcat(key, Before(ctx), Inorder(t));
    IncreasingConcat(key, Inorder(t.left) + [t.id], Inorder(t.right));
    IncreasingConcat(key, Inorder(t.left), [t.id]);
    assert t.id in [t.id] && t.id in Inorder(t.left) + [t.id];
  }

  /** A search for k that goes down to the side k is on keeps everything it leaves behind on the
      other side of k. */
  lemma DescendContext(key: Link -> int, ctx: Context, t: Tree, k: int)
    requires t.Node? && Increasing(key, Inorder(Plug(ctx, t))) && key(t.id) != k
    requires AllBelow(key, Before(ctx), k) && AllAbove(key, After(ctx), k)
    ensures var side := k > key(t.id);
      var down := Step(t.id, side, Child(t, !side), ctx);
      AllBelow(key, Before(down), k) && AllAbove(key, After(down), k)
  {
    DescendBounds(key, ctx, t);
  }

  /** Only the entry at p may have key k: those before it have smaller keys, those after it greater. */
  ghost predicate Splits(key: Link -> int, s: seq<Link>, p: nat, k: int) {
    && p < |s|
    && (forall j | 0 <= j < p :: key(s[j]) < k)
    && (forall j | p < j < |s| :: k < key(s[j]))
  }

  /** Where a search that ran into the hole of ctx stands. */
  lemma {:induction false} HoleSplits(key: Link -> int, ctx: Context, k: int)
    requires ctx.Step? && AllBelow(key, Before(ctx), k) && AllAbove(key, After(ctx), k)
    ensures var s, n := Inorder(Plug(ctx, Leaf)), |Before(ctx)|;
      && s == Before(ctx) + After(ctx)
      && var p := if ctx.side then n - 1 else n;
         0 <= p && Splits(key, s, p, k) && s[p] == ctx.id
  {
    InorderPlug(ctx, Leaf);
    var b, a := Before(ctx), After(ctx);
    var s := Inorder(Plug(ctx, Leaf));
    assert s == b + a;
    forall j | 0 <= j < |b| ensures key(s[j]) < k { assert s[j] == b[j]; }
    forall j | |b| <= j < |s| ensures k < key(s[j]) { assert s[j] == a[j - |b|]; }
    if ctx.side {
      assert b[|b| - 1] == ctx.id;
    } else {
      assert a[0] == ctx.id;
    }
  }

  /** The entry on top of the hole's subtree has the subtrees' and the context's entries around it. */
  lemma TopEntry(ctx: Context, t: Tree)
    requires t.Node?
    ensures var s, p := Inorder(Plug(ctx, t)), |Before(ctx)| + |Inorder(t.left)|;
      && p < |s| && s[p] == t.id && s[..p] == Before(ctx) + Inorder(t.left)
      && s[p + 1..] == Inorder(t.right) + After(ctx)
  {
    InorderPlug(ctx, t);
    Around(Before(ctx), Inorder(t.left), t.id, Inorder(t.right), After(ctx));
    SplitAt(Before(ctx) + Inorder(t.left), t.id, Inorder(t.right) + After(ctx));
  }

  lemma Around(b: seq<Link>, l: seq<Link>, x: Link, r: seq<Link>, a: seq<Link>)
    ensures b + (l + [x] + r) + a == (b + l) + [x] + (r + a)
  {
  }

  lemma SplitAt(a: seq<Link>, x: Link, b: seq<Link>)
    ensures var s := a + [x] + b; s[|a|] == x && s[..|a|] == a && s[|a| + 1..] == b
  {
  }

  ghost predicate Distinct(s: seq<Link>) {
    forall x :: multiset(s)[x] <= 1
  }

  lemma DistinctConcat(a: seq<Link>, b: seq<Link>)
    requires Distinct(a + b)
    ensures Distinct(a) && Distinct(b)
    ensures forall x | x in a :: x !in b
  {
    assert multiset(a + b) == multiset(a) + multiset(b);
    forall x ensures multiset(a)[x] + multiset(b)[x] <= 1 {
      assert multiset(a + b)[x] <= 1;
    }
    forall x | x in a ensures x !in b {
      assert x in multiset(a);
      assert x in b ==> x in multiset(b);
      assert multiset(a)[x] + multiset(b)[x] <= 1;
    }
  }

  lemma DistinctAdd(a: seq<Link>, b: seq<Link>, x: Link)
    requires Distinct(a + [] + b) && x !in a && x !in b
    ensures Distinct(a + [x] + b)
  {
    var m := multiset(a + [] + b);
    assert m == multiset(a) + multiset(b);
    assert multiset(a + [x] + b) == m + multiset{x};
    forall y ensures multiset(a + [x] + b)[y] <= 1 {
      assert m[y] <= 1;
      assert x !in m;
    }
  }

  lemma DistinctNode(t: Tree)
    requires t.Node? && Distinct(Inorder(t))
    ensures Distinct(Inorder(t.left)) && Distinct(Inorder(t.right))
    ensures t.id !in Inorder(t.left) && t.id !in Inorder(t.right)
    ensures forall x | x in Inorder(t.left) :: x !in Inorder(t.right)
  {
    DistinctConcat(Inorder(t.left) + [t.id], Inorder(t.right));
    DistinctConcat(Inorder(t.left), [t.id]);
    assert t.id in Inorder(t.left) + [t.id];
    assert forall x | x in Inorder(t.left) :: x in Inorder(t.left) + [t.id];
  }

  lemma {:induction false} DistinctIndices(s: seq<Link>)
    requires Distinct(s)
    ensures forall i, j | 0 <= i < j < |s| :: s[i] != s[j]
  {
    forall i, j | 0 <= i < j < |s| ensures s[i] != s[j] {
      assert s == s[..j] + s[j..];
      DistinctConcat(s[..j], s[j..]);
      assert s[i] in s[..j] && s[j] in s[j..];
    }
  }

  lemma {:induction false} IndicesDistinct(s: seq<Link>)
    requires forall i, j | 0 <= i < j < |s| :: s[i] != s[j]
    ensures Distinct(s)
  {
    if s != [] {
      var n := |s| - 1;
      IndicesDistinct(s[..n]);
      assert s == s[..n] + [s[n]];
      assert s[n] !in s[..n];
      assert s[..n] + [] + [] == s[..n];
      assert s[..n] + [s[n]] + [] == s;
      DistinctAdd(s[..n], [], s[n]);
    }
  }

  /** The entries around the hole. */
  predicate InContext(ctx: Context, x: Link) {
    x in Before(ctx) || x in After(ctx)
  }

  lemma DistinctPlug(ctx: Context, t: Tree)
    requires Distinct(Inorder(Plug(ctx, t)))
    ensures Distinct(Inorder(t))
    ensures forall x | x in Inorder(t) :: !InContext(ctx, x)
  {
    InorderPlug(ctx, t);
    DistinctConcat(Before(ctx) + Inorder(t), After(ctx));
    DistinctConcat(Before(ctx), Inorder(t));
    forall x | x in Inorder(t) ensures !InContext(ctx, x) {
      assert x in Before(ctx) + Inorder(t);
    }
  }

  // ----- links -----

  /** link[0], link[1] and parent of every entry. */
  datatype Pointers = Pointers(child0: seq<Link>, child1: seq<Link>, parent: seq<Link>) {
    predicate Sized(n: nat) { |child0| == n && |child1| == n && |parent| == n }

    predicate Has(id: Link) { 0 <= id < |child0| && id < |child1| && id < |parent| }

    function At(id: Link, side: bool): Link
      requires Has(id)
    {
      if side then child1[id] else child0[id]
    }

    function SetChild(id: Link, side: bool, to: Link): (r: Pointers)
      requires Has(id)
    {
      if side then this.(child1 := child1[id := to]) else this.(child0 := child0[id := to])
    }

    function SetParent(id: Link, to: Link): (r: Pointers)
      requires Has(id)
    {
      this.(parent := parent[id := to])
    }
  }

  function RootLink(t: Tree): Link {
    if t.Leaf? then NULL else t.id
  }

  function ParentLink(ctx: Context): Link {
    if ctx.Top? then NULL else ctx.id
  }

  /** link is the root of an entry structure of shape t whose parent link is up. */
  predicate Links(m: Pointers, t: Tree, link: Link, up: Link) {
    match t
    case Leaf => link == NULL
    case Node(id, l, r) =>
      && link == id && m.Has(id) && m.parent[id] == up
      && Links(m, l, m.child0[id], id) && Links(m, r, m.child1[id], id)
  }

  lemma LinksMake(m: Pointers, id: Link, side: bool, t: Tree, s: Tree, link: Link, up: Link)
    ensures Links(m, Make(id, side, t, s), link, up)
       <==> link == id && m.Has(id) && m.parent[id] == up
            && Links(m, t, m.At(id, side), id) && Links(m, s, m.At(id, !side), id)
  {
  }

  /** The entries around the hole are linked to each other, to root, and to link in the hole. */
  predicate ContextLinks(m: Pointers, ctx: Context, link: Link, root: Link) {
    match ctx
    case Top => root == link
    case Step(id, side, s, up) =>
      && m.Has(id) && m.At(id, side) == link && m.parent[id] == ParentLink(up)
      && Links(m, s, m.At(id, !side), id)
      && ContextLinks(m, up, id, root)
  }

  predicate Agree(m: Pointers, m': Pointers, x: Link) {
    m.Has(x) ==> m'.Has(x) && m'.child0[x] == m.child0[x] && m'.child1[x] == m.child1[x] && m'.parent[x] == m.parent[x]
  }

  predicate SameChildren(m: Pointers, m': Pointers, x: Link) {
    m.Has(x) && m'.Has(x) && m'.child0[x] == m.child0[x] && m'.child1[x] == m.child1[x]
  }

  lemma {:induction false} LinksFrame(m: Pointers, m': Pointers, t: Tree, link: Link, up: Link)
    requires Links(m, t, link, up)
    requires forall x | x in Inorder(t) :: Agree(m, m', x)
    ensures Links(m', t, link, up)
  {
    match t
    case Leaf =>
    case Node(id, l, r) =>
      assert id in Inorder(t);
      LinksFrame(m, m', l, m.child0[id], id);
      LinksFrame(m, m', r, m.child1[id], id);
  }

  /** ... when only the root's parent link differs. */
  lemma LinksReparent(m: Pointers, m': Pointers, t: Tree, link: Link, up: Link, up': Link)
    requires Links(m, t, link, up) && Distinct(Inorder(t))
    requires forall x | x in Inorder(t) && x != link :: Agree(m, m', x)
    requires t.Node? ==> SameChildren(m, m', link) && m'.parent[link] == up'
    ensures Links(m', t, link, up')
  {
    if t.Node? {
      DistinctNode(t);
      LinksFrame(m, m', t.left, m.child0[link], link);
      LinksFrame(m, m', t.right, m.child1[link], link);
    }
  }

  lemma {:induction false} ContextLinksFrame(m: Pointers, m': Pointers, ctx: Context, link: Link, root: Link)
    requires ContextLinks(m, ctx, link, root)
    requires forall x | InContext(ctx, x) :: Agree(m, m', x)
    ensures ContextLinks(m', ctx, link, root)
  {
    match ctx
    case Top =>
    case Step(id, side, s, up) =>
      assert InContext(ctx, id);
      assert forall x | x in Inorder(s) || InContext(up, x) :: InContext(ctx, x);
      LinksFrame(m, m', s, m.At(id, !side), id);
      ContextLinksFrame(m, m', up, id, root);
  }

  /** ... when only what is in the hole differs. */
  lemma ContextLinksRefill(m: Pointers, m': Pointers, ctx: Context, link: Link, link': Link, root: Link, root': Link)
    requires ContextLinks(m, ctx, link, root) && Distinct(Before(ctx) + After(ctx))
    requires ctx.Top? ==> root' == link'
    requires ctx.Step? ==>
      && root' == root && m'.Has(ctx.id) && m'.At(ctx.id, ctx.side) == link'
      && m'.At(ctx.id, !ctx.side) == m.At(ctx.id, !ctx.side) && m'.parent[ctx.id] == m.parent[ctx.id]
    requires forall x | InContext(ctx, x) && x != ParentLink(ctx) :: Agree(m, m', x)
    ensures ContextLinks(m', ctx, link', root')
  {
    match ctx
    case Top =>
    case Step(id, side, s, up) =>
      ContextDistinct(ctx);
      assert forall x | x in Inorder(s) || InContext(up, x) :: InContext(ctx, x);
      LinksFrame(m, m', s, m.At(id, !side), id);
      ContextLinksFrame(m, m', up, id, root);
  }

  lemma ContextDistinct(ctx: Context)
    requires ctx.Step? && Distinct(Before(ctx) + After(ctx))
    ensures ctx.id !in Inorder(ctx.sibling) && !InContext(ctx.up, ctx.id)
    ensures Distinct(Inorder(ctx.sibling)) && Distinct(Before(ctx.up) + After(ctx.up))
    ensures forall x | x in Inorder(ctx.sibling) :: !InContext(ctx.up, x)
  {
    var b, a, s, id := Before(ctx.up), After(ctx.up), Inorder(ctx.sibling), [ctx.id];
    assert multiset(Before(ctx) + After(ctx)) == multiset((b + a) + (s + id)) by {
      assert multiset((b + a) + (s + id)) == multiset(b) + multiset(a) + (multiset(s) + multiset(id));
    }
    assert Distinct((b + a) + (s + id));
    DistinctConcat(b + a, s + id);
    DistinctConcat(s, id);
    assert ctx.id in id && ctx.id in s + id;
    forall x | x in s ensures !InContext(ctx.up, x) {
      assert x in s + id;
      assert x in b || x in a ==> x in b + a;
    }
  }

  /** The child index the code computes by comparing with link[1] is the hole's side. */
  lemma HoleSide(m: Pointers, ctx: Context, t: Tree, root: Link)
    requires ctx.Step? && t.Node? && Distinct(Inorder(Plug(ctx, t)))
    requires Links(m, t, t.id, ctx.id) && ContextLinks(m, ctx, t.id, root)
    ensures (m.child1[ctx.id] == t.id) == ctx.side && (m.child0[ctx.id] == t.id) == !ctx.side
    ensures ctx.id != t.id && t.id >= 0
  {
    DistinctPlug(ctx, t);
    assert t.id in Inorder(t);
    assert InContext(ctx, ctx.id);
    if ctx.sibling.Node? {
      assert ctx.sibling.id in Inorder(ctx.sibling);
      assert InContext(ctx, ctx.sibling.id);
    }
  }

  /** What CAvl_rotate leaves in the link members: r, whose child on the far side of dir was nr,
      becomes nr's child on side dir and takes over the subtree nr had there. */
  ghost predicate Rotated(m: Pointers, m': Pointers, ctx: Context, r: Link, nr: Link, dir: bool, inner: Tree)
    requires m.Has(r) && m.Has(nr) && (ctx.Step? ==> m.Has(ctx.id))
  {
    && m'.Has(r) && m'.Has(nr)
    && m'.At(r, !dir) == RootLink(inner) && m'.At(r, dir) == m.At(r, dir) && m'.parent[r] == nr
    && m'.At(nr, dir) == r && m'.At(nr, !dir) == m.At(nr, !dir) && m'.parent[nr] == ParentLink(ctx)
    && (inner.Node? ==> SameChildren(m, m', inner.id) && m'.parent[inner.id] == r)
    && (ctx.Step? ==>
          && m'.Has(ctx.id) && m'.At(ctx.id, ctx.side) == nr
          && m'.At(ctx.id, !ctx.side) == m.At(ctx.id, !ctx.side) && m'.parent[ctx.id] == m.parent[ctx.id])
    && (forall x | x != r && x != nr && x != RootLink(inner) && x != ParentLink(ctx) :: Agree(m, m', x))
  }

  /** The same assignments one after the other. */
  function MovedPointers(m: Pointers, r: Link, dir: bool, rParent: Link, nr: Link, moved: Link): Pointers
    requires m.Has(r) && m.Has(nr) && (moved != NULL ==> m.Has(moved)) && (rParent != NULL ==> m.Has(rParent))
  {
    var m1 := m.SetChild(r, !dir, moved);
    var m2 := if moved != NULL then m1.SetParent(moved, r) else m1;
    var m3 := m2.SetChild(nr, dir, r).SetParent(nr, rParent);
    var m4 := if rParent != NULL then m3.SetChild(rParent, r == m3.child1[rParent], nr) else m3;
    m4.SetParent(r, nr)
  }

  lemma MovedIsRotated(m: Pointers, ctx: Context, r: Link, nr: Link, dir: bool, inner: Tree)
    requires m.Has(r) && m.Has(nr) && r != nr && m.At(nr, dir) == RootLink(inner)
    requires inner.Node? ==> m.Has(inner.id) && inner.id != r && inner.id != nr && inner.id != ParentLink(ctx)
    requires ctx.Step? ==>
      m.Has(ctx.id) && ctx.id != r && ctx.id != nr && (m.child1[ctx.id] == r) == ctx.side
    ensures Rotated(m, MovedPointers(m, r, dir, ParentLink(ctx), nr, RootLink(inner)), ctx, r, nr, dir, inner)
  {
    var m' := MovedPointers(m, r, dir, ParentLink(ctx), nr, RootLink(inner));
    forall x | x != r && x != nr && x != RootLink(inner) && x != ParentLink(ctx) ensures Agree(m, m', x) {
      MovedElsewhere(m, r, dir, ParentLink(ctx), nr, RootLink(inner), x);
    }
  }

  lemma MovedElsewhere(m: Pointers, r: Link, dir: bool, rParent: Link, nr: Link, moved: Link, x: Link)
    requires m.Has(r) && m.Has(nr) && (moved != NULL ==> m.Has(moved)) && (rParent != NULL ==> m.Has(rParent))
    requires x != r && x != nr && x != moved && x != rParent
    ensures Agree(m, MovedPointers(m, r, dir, rParent, nr, moved), x)
  {
  }

  lemma RotateLinks(m: Pointers, m': Pointers, ctx: Context, r: Link, nr: Link, dir: bool,
                    near: Tree, inner: Tree, outer: Tree, root: Link, root': Link)
    requires m.Has(r) && m.Has(nr) && ContextLinks(m, ctx, r, root)
    requires var t := Make(r, !dir, Make(nr, dir, inner, outer), near);
      Links(m, t, r, ParentLink(ctx)) && Distinct(Inorder(Plug(ctx, t)))
    requires Rotated(m, m', ctx, r, nr, dir, inner)
    requires root' == if ctx.Top? then nr else root
    ensures var t' := Make(nr, dir, Make(r, !dir, inner, near), outer);
      && Links(m', t', nr, ParentLink(ctx)) && ContextLinks(m', ctx, nr, root')
  {
    var u := Make(nr, dir, inner, outer);
    var t := Make(r, !dir, u, near);
    assert nr in Inorder(u) && (inner.Node? ==> inner.id in Inorder(inner) && inner.id in Inorder(u));
    assert forall x | x in Inorder(u) :: x in Inorder(t);
    RotateContext(m, m', ctx, r, nr, dir, t, inner, root, root');
    RotateInside(m, m', ctx, r, nr, dir, near, inner, outer);
  }

  lemma RotateInorder(r: Link, nr: Link, dir: bool, near: Tree, inner: Tree, outer: Tree)
    ensures Inorder(Make(nr, dir, Make(r, !dir, inner, near), outer))
         == Inorder(Make(r, !dir, Make(nr, dir, inner, outer), near))
  {
    var a, b, c := Inorder(near), Inorder(inner), Inorder(outer);
    if dir {
      assert c + [nr] + (b + [r] + a) == (c + [nr] + b) + [r] + a;
    } else {
      assert (a + [r] + b) + [nr] + c == a + [r] + (b + [nr] + c);
    }
  }

  lemma RotateContext(m: Pointers, m': Pointers, ctx: Context, r: Link, nr: Link, dir: bool,
                      t: Tree, inner: Tree, root: Link, root': Link)
    requires t.Node? && t.id == r && nr in Inorder(t) && (inner.Node? ==> inner.id in Inorder(t))
    requires m.Has(r) && m.Has(nr) && Distinct(Inorder(Plug(ctx, t)))
    requires ContextLinks(m, ctx, r, root) && Rotated(m, m', ctx, r, nr, dir, inner)
    requires root' == if ctx.Top? then nr else root
    ensures ContextLinks(m', ctx, nr, root')
  {
    DistinctPlug(ctx, t);
    assert r in Inorder(t);
    ContextOfPlug(ctx, t);
    forall x | InContext(ctx, x) && x != ParentLink(ctx) ensures Agree(m, m', x) {
      assert x !in Inorder(t);
      assert inner.Leaf? ==> !m.Has(NULL);
    }
    ContextLinksRefill(m, m', ctx, r, nr, root, root');
  }

  lemma ContextOfPlug(ctx: Context, t: Tree)
    requires Distinct(Inorder(Plug(ctx, t)))
    ensures Distinct(Before(ctx) + After(ctx))
  {
    InorderPlug(ctx, t);
    var b, a, s := Before(ctx), After(ctx), Inorder(t);
    assert multiset(b + s + a) == multiset(b) + multiset(s) + multiset(a);
    forall x ensures multiset(b + a)[x] <= 1 {
      assert multiset(b + s + a)[x] <= 1;
    }
  }

  lemma RotateInside(m: Pointers, m': Pointers, ctx: Context, r: Link, nr: Link, dir: bool,
                     near: Tree, inner: Tree, outer: Tree)
    requires m.Has(r) && m.Has(nr) && (ctx.Step? ==> m.Has(ctx.id))
    requires var t := Make(r, !dir, Make(nr, dir, inner, outer), near);
      Links(m, t, r, ParentLink(ctx)) && Distinct(Inorder(Plug(ctx, t)))
    requires Rotated(m, m', ctx, r, nr, dir, inner)
    ensures Links(m', Make(nr, dir, Make(r, !dir, inner, near), outer), nr, ParentLink(ctx))
  {
    LinksMake(m, r, !dir, Make(nr, dir, inner, outer), near, r, ParentLink(ctx));
    LinksMake(m, nr, dir, inner, outer, nr, r);
    RotateApart(ctx, r, nr, dir, near, inner, outer);
    forall x | x in Inorder(near) || x in Inorder(outer) ensures Agree(m, m', x) {
      RotateOutside(ctx, r, nr, dir, near, inner, outer, x);
      RotatedElsewhere(m, m', ctx, r, nr, dir, inner, x);
    }
    forall x | x in Inorder(inner) && x != RootLink(inner) ensures Agree(m, m', x) {
      RotateOutside(ctx, r, nr, dir, near, inner, outer, x);
      RotatedElsewhere(m, m', ctx, r, nr, dir, inner, x);
    }
    LinksFrame(m, m', near, m.At(r, dir), r);
    LinksFrame(m, m', outer, m.At(nr, !dir), nr);
    LinksReparent(m, m', inner, m.At(nr, dir), nr, r);
    LinksMake(m', r, !dir, inner, near, r, nr);
    LinksMake(m', nr, dir, Make(r, !dir, inner, near), outer, nr, ParentLink(ctx));
  }

  /** The two rotated entries, the three subtrees and the context have no entry in common. */
  lemma {:induction false} RotateApart(ctx: Context, r: Link, nr: Link, dir: bool, near: Tree, inner: Tree, outer: Tree)
    requires Distinct(Inorder(Plug(ctx, Make(r, !dir, Make(nr, dir, inner, outer), near))))
    ensures r != nr && Distinct(Inorder(inner))
    ensures forall x | x in Inorder(near) || x in Inorder(inner) || x in Inorder(outer) ::
      x != r && x != nr && !InContext(ctx, x)
    ensures !InContext(ctx, r) && !InContext(ctx, nr)
    ensures forall x | x in Inorder(inner) :: x !in Inorder(near) && x !in Inorder(outer)
  {
    var u := Make(nr, dir, inner, outer);
    MakeApart(ctx, r, !dir, u, near);
    MakeApart(Step(r, !dir, near, ctx), nr, dir, inner, outer);
    MakeElements(nr, dir, inner, outer);
  }

  lemma {:induction false} MakeElements(id: Link, side: bool, t: Tree, s: Tree)
    ensures forall x :: x in Inorder(Make(id, side, t, s)) <==> x == id || x in Inorder(t) || x in Inorder(s)
  {
  }

  /** An entry, its two subtrees and the context have no entry in common. */
  lemma {:induction false} MakeApart(ctx: Context, id: Link, side: bool, t: Tree, s: Tree)
    requires Distinct(Inorder(Plug(ctx, Make(id, side, t, s))))
    ensures !InContext(ctx, id) && id !in Inorder(t) && id !in Inorder(s) && Distinct(Inorder(t))
    ensures forall x | x in Inorder(t) :: x !in Inorder(s) && !InContext(ctx, x)
    ensures forall x | x in Inorder(s) :: !InContext(ctx, x)
  {
    var n := Make(id, side, t, s);
    DistinctPlug(ctx, n);
    DistinctNode(n);
    MakeElements(id, side, t, s);
  }

  lemma RotateOutside(ctx: Context, r: Link, nr: Link, dir: bool, near: Tree, inner: Tree, outer: Tree, x: Link)
    requires Distinct(Inorder(Plug(ctx, Make(r, !dir, Make(nr, dir, inner, outer), near))))
    requires x in Inorder(near) || x in Inorder(inner) || x in Inorder(outer)
    ensures x != r && x != nr && (ctx.Step? ==> x != ctx.id)
    ensures inner.Node? && (x in Inorder(near) || x in Inorder(outer)) ==> x != inner.id
  {
    RotateApart(ctx, r, nr, dir, near, inner, outer);
    assert ctx.Step? ==> InContext(ctx, ctx.id);
    assert inner.Node? ==> inner.id in Inorder(inner);
  }

  lemma RotatedElsewhere(m: Pointers, m': Pointers, ctx: Context, r: Link, nr: Link, dir: bool, inner: Tree, x: Link)
    requires m.Has(r) && m.Has(nr) && (ctx.Step? ==> m.Has(ctx.id)) && Rotated(m, m', ctx, r, nr, dir, inner)
    requires x != r && x != nr && (inner.Node? ==> x != inner.id) && (ctx.Step? ==> x != ctx.id)
    ensures Agree(m, m', x)
  {
    if x == NULL { assert !m.Has(x); }
  }

  lemma RotateInorderPlug(ctx: Context, r: Link, nr: Link, dir: bool, near: Tree, inner: Tree, outer: Tree)
    ensures Inorder(Plug(ctx, Make(nr, dir, Make(r, !dir, inner, near), outer)))
         == Inorder(Plug(ctx, Make(r, !dir, Make(nr, dir, inner, outer), near)))
  {
    RotateInorder(r, nr, dir, near, inner, outer);
    InorderPlug(ctx, Make(nr, dir, Make(r, !dir, inner, near), outer));
    InorderPlug(ctx, Make(r, !dir, Make(nr, dir, inner, outer), near));
  }

  lemma {:induction false} LinksPlug(m: Pointers, ctx: Context, t: Tree, root: Link)
    ensures Links(m, Plug(ctx, t), root, NULL)
       <==> Links(m, t, RootLink(t), ParentLink(ctx)) && ContextLinks(m, ctx, RootLink(t), root)
  {
    match ctx
    case Top =>
    case Step(id, side, s, up) =>
      LinksPlug(m, up, Make(id, side, t, s), root);
      LinksMake(m, id, side, t, s, id, ParentLink(up));
  }

  /** Every entry of the tree is on top of some hole's subtree. */
  lemma {:induction false} LocateAt(ctx: Context, t: Tree, i: nat) returns (c: Context, s: Tree)
    requires i < |Inorder(t)|
    ensures s.Node? && s.id == Inorder(t)[i] && Plug(c, s) == Plug(ctx, t)
    ensures |Before(c)| + |Inorder(s.left)| == |Before(ctx)| + i
    decreases t
  {
    var n := |Inorder(t.left)|;
    if i < n {
      c, s := LocateAt(Step(t.id, false, t.right, ctx), t.left, i);
    } else if i == n {
      c, s := ctx, t;
    } else {
      c, s := LocateAt(Step(t.id, true, t.left, ctx), t.right, i - n - 1);
    }
  }

  predicate Spliced(before: seq<Link>, after: seq<Link>, at: nat, x: Link) {
    at <= |before| && after == before[..at] + [x] + before[at..]
  }

  /** ref is next to position at. */
  predicate Neighbour(s: seq<Link>, at: nat, ref: Link) {
    (0 < at <= |s| && ref == s[at - 1]) || (at < |s| && ref == s[at])
  }

  predicate KeyTaken(key: Link -> int, s: seq<Link>, k: int) {
    exists x | x in s :: key(x) == k
  }

  lemma SplitsTaken(key: Link -> int, s: seq<Link>, p: nat, k: int)
    requires Splits(key, s, p, k)
    ensures KeyTaken(key, s, k) <==> key(s[p]) == k
  {
    if KeyTaken(key, s, k) {
      var x :| x in s && key(x) == k;
      var j :| 0 <= j < |s| && s[j] == x;
      assert j == p;
    } else {
      var x := s[p];
      assert x in s;
    }
  }

  lemma HoleSpliced(hole: Context, x: Link)
    ensures Spliced(Inorder(Plug(hole, Leaf)), Before(hole) + [x] + After(hole), |Before(hole)|, x)
  {
    InorderPlug(hole, Leaf);
    var b, a, s := Before(hole), After(hole), Inorder(Plug(hole, Leaf));
    assert s == b + a;
    assert s[..|b|] == b && s[|b|..] == a;
  }

  lemma HoleOutside(hole: Context, x: Link)
    requires x !in Inorder(Plug(hole, Leaf))
    ensures !InContext(hole, x)
  {
    InorderPlug(hole, Leaf);
  }

  lemma SizeParts(ctx: Context, t: Tree)
    requires t.Node?
    ensures |Inorder(t)| == |Inorder(t.left)| + 1 + |Inorder(t.right)|
    ensures |Before(Step(t.id, false, t.right, ctx))| == |Before(ctx)|
    ensures |Before(Step(t.id, true, t.left, ctx))| == |Before(ctx)| + |Inorder(t.left)| + 1
  {
  }

  lemma TopRange(ctx: Context, t: Tree)
    requires t.Node?
    ensures var s, b, p := Inorder(Plug(ctx, t)), |Before(ctx)|, |Before(ctx)| + |Inorder(t.left)|;
      p < |s| && s[b..p] == Inorder(t.left) && s[p..p + 1] == [t.id]
  {
    InorderPlug(ctx, t);
    Around(Before(ctx), Inorder(t.left), t.id, Inorder(t.right), After(ctx));
    RangeOf(Before(ctx), Inorder(t.left), t.id, Inorder(t.right) + After(ctx));
  }

  lemma RangeOf(b: seq<Link>, l: seq<Link>, x: Link, r: seq<Link>)
    ensures var s, p := (b + l) + [x] + r, |b| + |l|; s[|b|..p] == l && s[p..p + 1] == [x]
  {
  }

  predicate CutOut(before: seq<Link>, after: seq<Link>, i: nat) {
    i < |before| && after == before[..i] + before[i + 1..]
  }

  lemma CutOutIncreasing(key: Link -> int, before: seq<Link>, after: seq<Link>, i: nat)
    requires Increasing(key, before) && CutOut(before, after, i)
    ensures Increasing(key, after)
  {
    forall j, k | 0 <= j < k < |after| ensures key(after[j]) < key(after[k]) {
      assert after[j] == before[if j < i then j else j + 1];
      assert after[k] == before[if k < i then k else k + 1];
    }
  }

  /** Replacing an entry that has at most one child by that child cuts it out. */
  lemma TopCutOut(ctx: Context, t: Tree, i: nat)
    requires t.Node? && i == |Before(ctx)| + |Inorder(t.left)|
    ensures CutOut(Inorder(Plug(ctx, t)), Before(ctx) + (Inorder(t.left) + Inorder(t.right)) + After(ctx), i)
  {
    InorderPlug(ctx, t);
    Around(Before(ctx), Inorder(t.left), t.id, Inorder(t.right), After(ctx));
    CutOutOf(Before(ctx), Inorder(t.left), t.id, Inorder(t.right), After(ctx));
  }

  lemma CutOutOf(b: seq<Link>, l: seq<Link>, x: Link, r: seq<Link>, a: seq<Link>)
    ensures CutOut((b + l) + [x] + (r + a), b + (l + r) + a, |b| + |l|)
  {
    SplitAt(b + l, x, r + a);
    assert b + (l + r) + a == (b + l) + (r + a);
  }

  lemma {:induction false} DistinctFill(ctx: Context, t: Tree, t': Tree)
    requires Distinct(Inorder(Plug(ctx, t))) && multiset(Inorder(t')) <= multiset(Inorder(t))
    ensures Distinct(Inorder(Plug(ctx, t')))
  {
    var b, s, s', a := Before(ctx), Inorder(t), Inorder(t'), After(ctx);
    assert Inorder(Plug(ctx, t)) == b + s + a by { InorderPlug(ctx, t); }
    DistinctMiddle(b, s, s', a);
    InorderPlug(ctx, t');
  }

  lemma DistinctMiddle(b: seq<Link>, s: seq<Link>, s': seq<Link>, a: seq<Link>)
    requires Distinct(b + s + a) && multiset(s') <= multiset(s)
    ensures Distinct(b + s' + a)
  {
    assert multiset(b + s + a) == multiset(b) + multiset(s) + multiset(a);
    assert multiset(b + s' + a) == multiset(b) + multiset(s') + multiset(a);
    forall x ensures multiset(b + s' + a)[x] <= 1 {
      assert multiset(b + s + a)[x] <= 1;
    }
  }
}
