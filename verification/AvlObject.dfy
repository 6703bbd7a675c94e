/** The tree of structure/CAvl_impl.h as an object whose entries' members are updated in place.

    Links are indices into the arena the entries live in; each entry member is a sequence over
    that arena, reassigned at one index by each assignment of the source. */
module AvlObject {
  import opened Wrappers
  import opened AvlTree
  import opened AvlBalance
  import opened AvlSums
  import opened AvlRemove

  class CAvl<A(!new)> {
    // the caller's callbacks: entry values, their operation, and entry keys
    const op: (A, A) -> A
    const zero: A
    const value: Link -> A
    const key: Link -> int
    /** the size of the arena */
    const capacity: nat

    /** The shape the members describe. */
    ghost var tree: Tree

    var root: Link
    var ptr: Pointers
    var balance: seq<int>
    var count: seq<nat>
    var assoc: seq<A>

    ghost predicate Valid()
      reads this
    {
      Associative(op) && Sized() && Focused(Top, tree) && Balanced(balance, tree)
    }

    /** The entries in tree order. */
    ghost function Entries(): seq<Link>
      reads `tree
    {
      Inorder(tree)
    }

    /** Search order: what a tree with keys keeps, and a tree indexed by position does not need. */
    ghost predicate Ordered()
      reads `tree
    {
      Increasing(key, Entries())
    }

    /** CAvl_Init, over an arena whose members hold anything. */
    constructor (op: (A, A) -> A, zero: A, value: Link -> A, key: Link -> int,
                 ptr: Pointers, balance: seq<int>, count: seq<nat>, assoc: seq<A>)
      requires Associative(op) && ptr.Sized(|balance|) && |count| == |balance| && |assoc| == |balance|
      ensures Valid() && Entries() == [] && Ordered()
      ensures this.op == op && this.zero == zero && this.value == value && this.key == key
      ensures this.ptr == ptr && this.balance == balance && capacity == |balance|
    {
      tree := Leaf;
      this.op, this.zero, this.value, this.key, this.capacity := op, zero, value, key, |balance|;
      root := NULL;
      this.ptr, this.balance, this.count, this.assoc := ptr, balance, count, assoc;
    }

    /** The arena holds every member of every entry. */
    predicate Sized()
      reads this
    {
      ptr.Sized(capacity) && |balance| == capacity && |count| == capacity && |assoc| == capacity
    }

    ghost predicate Linked(ctx: Context, t: Tree)
      reads `root, `ptr
    {
      && Links(ptr, t, RootLink(t), ParentLink(ctx))
      && ContextLinks(ptr, ctx, RootLink(t), root)
      && Distinct(Inorder(Plug(ctx, t)))
    }

    ghost predicate Counted(ctx: Context, t: Tree)
      reads `count
    {
      Summed(PLUS, ONE, count, t) && ContextSummed(PLUS, ONE, count, ctx, TreeSum(PLUS, ONE, t))
    }

    ghost predicate Associated(ctx: Context, t: Tree)
      reads `assoc
    {
      Summed(op, value, assoc, t) && ContextSummed(op, value, assoc, ctx, TreeSum(op, value, t))
    }

    /** CAvl_update_count_from_children */
    method UpdateCount(n: Link, ghost t: Tree)
      requires Sized() && t.Node? && t.id == n && ptr.Has(n)
      requires ptr.child0[n] == RootLink(t.left) && ptr.child1[n] == RootLink(t.right)
      requires n !in Inorder(t.left) && n !in Inorder(t.right)
      requires Summed(PLUS, ONE, count, t.left) && Summed(PLUS, ONE, count, t.right)
      modifies `count
      ensures |count| == |old(count)| && Summed(PLUS, ONE, count, t)
      ensures forall x | x != n :: AgreeAt(old(count), count, x)
    {
      var c0, c1 := ptr.child0[n], ptr.child1[n];
      CombineCounts(TreeSum(PLUS, ONE, t.left), TreeSum(PLUS, ONE, t.right));
      ghost var before := count;
      count := count[n := 1 + (if c0 != NULL then count[c0] else 0) + (if c1 != NULL then count[c1] else 0)];
      SummedFrame(PLUS, ONE, before, count, t.left);
      SummedFrame(PLUS, ONE, before, count, t.right);
    }

    /** CAvl_assoc(n) = CAvl_compute_node_assoc(arg, n) */
    method UpdateAssoc(n: Link, ghost t: Tree)
      requires Sized() && t.Node? && t.id == n && ptr.Has(n)
      requires ptr.child0[n] == RootLink(t.left) && ptr.child1[n] == RootLink(t.right)
      requires n !in Inorder(t.left) && n !in Inorder(t.right)
      requires Summed(op, value, assoc, t.left) && Summed(op, value, assoc, t.right)
      modifies `assoc
      ensures |assoc| == |old(assoc)| && Summed(op, value, assoc, t)
      ensures forall x | x != n :: AgreeAt(old(assoc), assoc, x)
    {
      var c0, c1 := ptr.child0[n], ptr.child1[n];
      ghost var before := assoc;
      var sum := value(n);
      if c0 != NULL { sum := op(assoc[c0], sum); }
      if c1 != NULL { sum := op(sum, assoc[c1]); }
      assoc := assoc[n := sum];
      SummedFrame(op, value, before, assoc, t.left);
      SummedFrame(op, value, before, assoc, t.right);
    }

    /** The link assignments of CAvl_rotate. */
    method RotatePointers(r: Link, dir: bool, rParent: Link, ghost ctx: Context, ghost nr: Link,
                          ghost near: Tree, ghost inner: Tree, ghost outer: Tree)
      requires ptr.Sized(capacity)
      requires Linked(ctx, Make(r, !dir, Make(nr, dir, inner, outer), near)) && rParent == ParentLink(ctx)
      modifies `root, `ptr
      ensures ptr.Sized(capacity)
      ensures Linked(ctx, Make(nr, dir, Make(r, !dir, inner, near), outer))
    {
      ghost var m, root0 := ptr, root;
      ghost var t := Make(r, !dir, Make(nr, dir, inner, outer), near);
      LinksMake(m, r, !dir, Make(nr, dir, inner, outer), near, r, ParentLink(ctx));
      LinksMake(m, nr, dir, inner, outer, nr, r);
      RotateApart(ctx, r, nr, dir, near, inner, outer);
      if ctx.Step? { HoleSide(m, ctx, t, root); assert InContext(ctx, ctx.id); }
      assert inner.Node? ==> inner.id in Inorder(inner);
      var n := ptr.At(r, !dir);
      var moved := ptr.At(n, dir);
      assert n == nr && moved == RootLink(inner);
      MovePointers(r, dir, rParent, n, moved);
      MovedIsRotated(m, ctx, r, nr, dir, inner);
      RotateLinks(m, ptr, ctx, r, nr, dir, near, inner, outer, root0, root);
      assert Distinct(Inorder(Plug(ctx, Make(nr, dir, Make(r, !dir, inner, near), outer)))) by {
        RotateInorderPlug(ctx, r, nr, dir, near, inner, outer);
      }
    }

    method MovePointers(r: Link, dir: bool, rParent: Link, nr: Link, moved: Link)
      requires ptr.Sized(capacity) && ptr.Has(r) && ptr.Has(nr)
      requires (moved != NULL ==> ptr.Has(moved)) && (rParent != NULL ==> ptr.Has(rParent))
      modifies `root, `ptr
      ensures ptr.Sized(capacity) && ptr == MovedPointers(old(ptr), r, dir, rParent, nr, moved)
      ensures root == if rParent == NULL then nr else old(root)
    {
      ptr := ptr.SetChild(r, !dir, moved);
      if moved != NULL {
        ptr := ptr.SetParent(moved, r);
      }
      ptr := ptr.SetChild(nr, dir, r);
      ptr := ptr.SetParent(nr, rParent);
      if rParent != NULL {
        ptr := ptr.SetChild(rParent, r == ptr.At(rParent, true), nr);
      } else {
        root := nr;
      }
      ptr := ptr.SetParent(r, nr);
    }

    /** The count updates of CAvl_rotate; t is the tree before it. */
    method RotateCounts(r: Link, nr: Link, dir: bool, ghost ctx: Context,
                        ghost near: Tree, ghost inner: Tree, ghost outer: Tree)
      requires Sized() && Linked(ctx, Make(nr, dir, Make(r, !dir, inner, near), outer))
      requires Counted(ctx, Make(r, !dir, Make(nr, dir, inner, outer), near))
      modifies `count
      ensures Sized() && Counted(ctx, Make(nr, dir, Make(r, !dir, inner, near), outer))
    {
      ghost var low := Make(r, !dir, inner, near);
      ghost var t := Make(nr, dir, low, outer);
      RotatedFacts(r, nr, dir, ctx, near, inner, outer);
      PlusLaws();
      RotateSum(PLUS, ONE, r, nr, dir, near, inner, outer);
      SumMake(PLUS, ONE, count, r, !dir, Make(nr, dir, inner, outer), near);
      SumMake(PLUS, ONE, count, nr, dir, inner, outer);
      ghost var count0 := count;
      UpdateCount(r, low);
      SummedFrame(PLUS, ONE, count0, count, outer);
      ghost var count1 := count;
      UpdateCount(nr, t);
      forall x | InContext(ctx, x) ensures AgreeAt(count0, count, x) {
        assert AgreeAt(count0, count1, x) && AgreeAt(count1, count, x);
      }
      ContextSummedFrame(PLUS, ONE, count0, count, ctx, TreeSum(PLUS, ONE, t));
    }

    method RotateAssocs(r: Link, nr: Link, dir: bool, ghost ctx: Context,
                        ghost near: Tree, ghost inner: Tree, ghost outer: Tree)
      requires Associative(op)
      requires Sized() && Linked(ctx, Make(nr, dir, Make(r, !dir, inner, near), outer))
      requires Associated(ctx, Make(r, !dir, Make(nr, dir, inner, outer), near))
      modifies `assoc
      ensures Sized() && Associated(ctx, Make(nr, dir, Make(r, !dir, inner, near), outer))
    {
      ghost var low := Make(r, !dir, inner, near);
      ghost var t := Make(nr, dir, low, outer);
      RotatedFacts(r, nr, dir, ctx, near, inner, outer);
      RotateSum(op, value, r, nr, dir, near, inner, outer);
      SumMake(op, value, assoc, r, !dir, Make(nr, dir, inner, outer), near);
      SumMake(op, value, assoc, nr, dir, inner, outer);
      ghost var assoc0 := assoc;
      UpdateAssoc(r, low);
      SummedFrame(op, value, assoc0, assoc, outer);
      ghost var assoc1 := assoc;
      UpdateAssoc(nr, t);
      forall x | InContext(ctx, x) ensures AgreeAt(assoc0, assoc, x) {
        assert AgreeAt(assoc0, assoc1, x) && AgreeAt(assoc1, assoc, x);
      }
      ContextSummedFrame(op, value, assoc0, assoc, ctx, TreeSum(op, value, t));
    }

    lemma RotatedFacts(r: Link, nr: Link, dir: bool, ctx: Context, near: Tree, inner: Tree, outer: Tree)
      requires Linked(ctx, Make(nr, dir, Make(r, !dir, inner, near), outer))
      ensures ptr.Has(r) && ptr.At(r, !dir) == RootLink(inner) && ptr.At(r, dir) == RootLink(near)
      ensures ptr.Has(nr) && ptr.At(nr, dir) == r && ptr.At(nr, !dir) == RootLink(outer)
      ensures r != nr && Without(inner, r, nr, nr) && Without(near, r, nr, nr) && Without(outer, r, nr, nr)
      ensures !InContext(ctx, r) && !InContext(ctx, nr)
    {
      var low := Make(r, !dir, inner, near);
      LinksMake(ptr, nr, dir, low, outer, nr, ParentLink(ctx));
      LinksMake(ptr, r, !dir, inner, near, r, nr);
      DistinctPlug(ctx, Make(nr, dir, low, outer));
      SingleApart(dir, nr, r, near, inner, outer);
      MakeFlip(r, dir, near, inner);
      assert r in Inorder(low) && r in Inorder(Make(nr, dir, low, outer));
      assert nr in Inorder(Make(nr, dir, low, outer));
    }

    /** CAvl_rotate: r is replaced by nr, its child away from dir, and becomes nr's child on dir. */
    method Rotate(r: Link, dir: bool, rParent: Link, ghost ctx: Context, ghost nr: Link,
                  ghost near: Tree, ghost inner: Tree, ghost outer: Tree)
      requires Associative(op) && Sized() && rParent == ParentLink(ctx)
      requires var t := Make(r, !dir, Make(nr, dir, inner, outer), near);
        Linked(ctx, t) && Counted(ctx, t) && Associated(ctx, t)
      modifies `root, `ptr, `count, `assoc
      ensures Sized()
      ensures var t' := Make(nr, dir, Make(r, !dir, inner, near), outer);
        Linked(ctx, t') && Counted(ctx, t') && Associated(ctx, t')
    {
      LinksMake(ptr, r, !dir, Make(nr, dir, inner, outer), near, r, ParentLink(ctx));
      var up := ptr.At(r, !dir);
      RotatePointers(r, dir, rParent, ctx, nr, near, inner, outer);
      RotateCounts(r, up, dir, ctx, near, inner, outer);
      RotateAssocs(r, up, dir, ctx, near, inner, outer);
    }

    /** Everything but the balances is right for the tree t in the hole of ctx. */
    ghost predicate Focused(ctx: Context, t: Tree)
      reads `root, `ptr, `count, `assoc
    {
      Linked(ctx, t) && Counted(ctx, t) && Associated(ctx, t)
    }

    lemma ZipUp(id: Link, side: bool, s: Tree, up: Context, t: Tree)
      requires Focused(Step(id, side, s, up), t)
      ensures Focused(up, Make(id, side, t, s))
    {
      LinksMake(ptr, id, side, t, s, id, ParentLink(up));
      SumMake(PLUS, ONE, count, id, side, t, s);
      SumMake(op, value, assoc, id, side, t, s);
    }

    /** The entries a rotation at node moves are outside its context and subtrees. */
    lemma SingleOutside(up: Context, node: Link, bside: bool, child: Link, outer: Tree, inner: Tree, light: Tree)
      requires Distinct(Inorder(Plug(up, Make(node, bside, Make(child, bside, outer, inner), light))))
      ensures node != child && !InContext(up, node) && !InContext(up, child)
      ensures Without(outer, node, child, child) && Without(inner, node, child, child) && Without(light, node, child, child)
    {
      var heavy := Make(child, bside, outer, inner);
      DistinctPlug(up, Make(node, bside, heavy, light));
      SingleApart(bside, node, child, outer, inner, light);
      assert child in Inorder(heavy);
      assert node in Inorder(Make(node, bside, heavy, light)) && child in Inorder(Make(node, bside, heavy, light));
    }

    /** Cases 1 and 0 of the switch in CAvl_rebalance; delta is what they add to the height change. */
    method RebalanceSingle(node: Link, bside: bool, child: Link, ghost up: Context,
                           ghost outer: Tree, ghost inner: Tree, ghost light: Tree, ghost h: int)
      returns (delta: int)
      requires Associative(op) && Sized() && 0 <= node < |balance| && 0 <= child < |balance|
      requires Focused(up, Make(node, bside, Make(child, bside, outer, inner), light))
      requires Balanced(balance, Make(child, bside, outer, inner)) && Balanced(balance, light)
      requires ContextBalanced(balance, up, h)
      requires Height(Make(child, bside, outer, inner)) == Height(light) + 2
      requires 0 <= Facing(bside, balance[child])
      modifies `root, `ptr, `count, `assoc, `balance
      ensures Sized()
      ensures var n' := Make(child, !bside, Make(node, bside, inner, light), outer);
        && Focused(up, n') && Balanced(balance, n') && ContextBalanced(balance, up, h)
        && Height(n') == Height(light) + 3 + delta
      ensures -1 <= delta <= 0
    {
      SingleOutside(up, node, bside, child, outer, inner, light);
      MakeFlip(child, bside, inner, outer);
      LinksMake(ptr, node, bside, Make(child, bside, outer, inner), light, node, ParentLink(up));
      Rotate(node, !bside, ptr.parent[node], up, child, light, inner, outer);
      delta := SetSingleBalances(node, bside, child, up, outer, inner, light, h);
    }

    method SetSingleBalances(node: Link, bside: bool, child: Link, ghost up: Context,
                             ghost outer: Tree, ghost inner: Tree, ghost light: Tree, ghost h: int)
      returns (delta: int)
      requires 0 <= node < |balance| && 0 <= child < |balance| && node != child
      requires !InContext(up, node) && !InContext(up, child)
      requires Without(outer, node, child, child) && Without(inner, node, child, child)
      requires Without(light, node, child, child)
      requires Balanced(balance, Make(child, bside, outer, inner)) && Balanced(balance, light)
      requires ContextBalanced(balance, up, h)
      requires Height(Make(child, bside, outer, inner)) == Height(light) + 2
      requires 0 <= Facing(bside, balance[child])
      modifies `balance
      ensures |balance| == |old(balance)|
      ensures var n' := Make(child, !bside, Make(node, bside, inner, light), outer);
        && Balanced(balance, n') && ContextBalanced(balance, up, h)
        && Height(n') == Height(light) + 3 + delta
      ensures -1 <= delta <= 0
    {
      ghost var b := balance;
      if Facing(bside, balance[child]) == 1 {
        balance := balance[node := 0];
        balance := balance[child := 0];
        delta := -1;
      } else {
        balance := balance[node := Facing(bside, 1)];
        balance := balance[child := Facing(bside, -1)];
        delta := 0;
      }
      BalancedMake(b, child, bside, outer, inner);
      SingleRotation(b, balance, bside, node, child, outer, inner, light);
      ContextBalancedFrame(b, balance, up, h);
    }

    lemma ZipDown(id: Link, side: bool, s: Tree, up: Context, t: Tree)
      requires Focused(up, Make(id, side, t, s))
      ensures Focused(Step(id, side, s, up), t)
    {
      LinksMake(ptr, id, side, t, s, id, ParentLink(up));
      SumMake(PLUS, ONE, count, id, side, t, s);
      SumMake(op, value, assoc, id, side, t, s);
    }

    /** Case -1 of the switch in CAvl_rebalance. */
    method RebalanceDouble(node: Link, bside: bool, child: Link, grand: Link, ghost up: Context,
                           ghost outer: Tree, ghost far: Tree, ghost near: Tree, ghost light: Tree, ghost h: int)
      requires Associative(op) && Sized() && 0 <= node < |balance| && 0 <= child < |balance| && 0 <= grand < |balance|
      requires Focused(up, Make(node, bside, Make(child, bside, outer, Make(grand, bside, far, near)), light))
      requires Balanced(balance, Make(child, bside, outer, Make(grand, bside, far, near))) && Balanced(balance, light)
      requires ContextBalanced(balance, up, h)
      requires Height(Make(child, bside, outer, Make(grand, bside, far, near))) == Height(light) + 2
      requires Facing(bside, balance[child]) == -1
      modifies `root, `ptr, `count, `assoc, `balance
      ensures Sized()
      ensures var n' := Make(grand, !bside, Make(node, bside, near, light), Make(child, !bside, far, outer));
        && Focused(up, n') && Balanced(balance, n') && ContextBalanced(balance, up, h)
        && Height(n') == Height(light) + 2
    {
      DoubleOutside(up, node, bside, child, grand, outer, far, near, light);
      RotateTwice(node, bside, child, up, grand, outer, far, near, light);
      SetDoubleBalances(node, bside, child, grand, up, outer, far, near, light, h);
    }

    lemma DoubleOutside(up: Context, node: Link, bside: bool, child: Link, grand: Link,
                        outer: Tree, far: Tree, near: Tree, light: Tree)
      requires Distinct(Inorder(Plug(up, Make(node, bside, Make(child, bside, outer, Make(grand, bside, far, near)), light))))
      ensures node != child && node != grand && child != grand
      ensures !InContext(up, node) && !InContext(up, child) && !InContext(up, grand)
      ensures Without(outer, node, child, grand) && Without(far, node, child, grand)
      ensures Without(near, node, child, grand) && Without(light, node, child, grand)
    {
      var inner := Make(grand, bside, far, near);
      var heavy := Make(child, bside, outer, inner);
      SingleOutside(up, node, bside, child, outer, inner, light);
      DistinctPlug(up, Make(node, bside, heavy, light));
      DoubleApart(bside, node, child, grand, outer, far, near, light);
      assert grand in Inorder(inner) && grand in Inorder(heavy) && grand in Inorder(Make(node, bside, heavy, light));
    }

    method RotateTwice(node: Link, bside: bool, child: Link, ghost up: Context, ghost grand: Link,
                       ghost outer: Tree, ghost far: Tree, ghost near: Tree, ghost light: Tree)
      requires Associative(op) && Sized()
      requires Focused(up, Make(node, bside, Make(child, bside, outer, Make(grand, bside, far, near)), light))
      modifies `root, `ptr, `count, `assoc
      ensures Sized()
      ensures Focused(up, Make(grand, !bside, Make(node, bside, near, light), Make(child, !bside, far, outer)))
    {
      ghost var lower := Make(child, !bside, far, outer);
      MakeFlip(child, bside, Make(grand, bside, far, near), outer);
      ZipDown(node, bside, light, up, Make(child, bside, outer, Make(grand, bside, far, near)));
      Rotate(child, bside, node, Step(node, bside, light, up), grand, outer, far, near);
      ZipUp(node, bside, light, up, Make(grand, bside, lower, near));
      MakeFlip(grand, bside, near, lower);
      LinksMake(ptr, node, bside, Make(grand, bside, lower, near), light, node, ParentLink(up));
      Rotate(node, !bside, ptr.parent[node], up, grand, light, near, lower);
    }

    method SetDoubleBalances(node: Link, bside: bool, child: Link, grand: Link, ghost up: Context,
                             ghost outer: Tree, ghost far: Tree, ghost near: Tree, ghost light: Tree, ghost h: int)
      requires 0 <= node < |balance| && 0 <= child < |balance| && 0 <= grand < |balance|
      requires node != child && node != grand && child != grand
      requires !InContext(up, node) && !InContext(up, child) && !InContext(up, grand)
      requires Without(outer, node, child, grand) && Without(far, node, child, grand)
      requires Without(near, node, child, grand) && Without(light, node, child, grand)
      requires Balanced(balance, Make(child, bside, outer, Make(grand, bside, far, near))) && Balanced(balance, light)
      requires ContextBalanced(balance, up, h)
      requires Height(Make(child, bside, outer, Make(grand, bside, far, near))) == Height(light) + 2
      requires Facing(bside, balance[child]) == -1
      modifies `balance
      ensures |balance| == |old(balance)|
      ensures var n' := Make(grand, !bside, Make(node, bside, near, light), Make(child, !bside, far, outer));
        && Balanced(balance, n') && ContextBalanced(balance, up, h) && Height(n') == Height(light) + 2
    {
      ghost var b := balance;
      balance := balance[node := Facing(bside, -Max(0, Facing(bside, balance[grand])))];
      balance := balance[child := Facing(bside, Max(0, Facing(bside, -balance[grand])))];
      balance := balance[grand := 0];
      DoubleRotation(b, balance, bside, node, child, grand, outer, far, near, light);
      ContextBalancedFrame(b, balance, up, h);
    }

    lemma Focus(ctx: Context, t: Tree)
      ensures Focused(Top, Plug(ctx, t)) <==> Focused(ctx, t)
    {
      LinksPlug(ptr, ctx, t, root);
      SummedPlug(PLUS, ONE, count, ctx, t);
      SummedPlug(op, value, assoc, ctx, t);
    }

    /** The part of CAvl_rebalance that deals with one node, whose subtree is n: returns the entry now
        on top of it, the subtree, and its height change. */
    method RebalanceNode(node: Link, side: bool, deltac: int,
                         ghost ctx: Context, ghost t: Tree, ghost h: int, ghost n: Tree, ghost hn: int)
      returns (delta: int, top: Link, ghost n': Tree)
      requires Associative(op) && Sized() && -1 <= deltac <= 1 && AtHole(ctx, node, side, t, n)
      requires Focused(ctx, t) && Balanced(balance, t) && ContextBalanced(balance, ctx, h)
      requires Height(t) == h + deltac && hn == 1 + Max(h, Height(ctx.sibling))
      modifies `root, `ptr, `count, `assoc, `balance
      ensures Sized() && n'.Node? && n'.id == top && Focused(ctx.up, n')
      ensures Balanced(balance, n') && ContextBalanced(balance, ctx.up, hn)
      ensures Height(n') == hn + delta && -1 <= delta <= 1
      ensures Inorder(n') == Inorder(n)
    {
      NodeOutside(node, side, ctx.sibling, ctx.up, t);
      ZipUp(node, side, ctx.sibling, ctx.up, t);
      delta := BumpBalance(node, side, deltac, ctx, t, h, n, hn);
      var d;
      d, top, n' := RestoreNode(node, n, ctx.up, hn);
      delta := delta + d;
    }

    /** The hole that t fills is the child of node on side; n is the subtree of node. */
    ghost predicate AtHole(ctx: Context, node: Link, side: bool, t: Tree, n: Tree) {
      ctx.Step? && ctx.id == node && ctx.side == side && n == Make(node, side, t, ctx.sibling)
    }

    lemma NodeOutside(node: Link, side: bool, s: Tree, up: Context, t: Tree)
      requires Distinct(Inorder(Plug(Step(node, side, s, up), t)))
      ensures node !in Inorder(t) && node !in Inorder(s) && !InContext(up, node)
    {
      DistinctPlug(up, Make(node, side, t, s));
      DistinctNode(Make(node, side, t, s));
      assert node in Inorder(Make(node, side, t, s));
    }

    method BumpBalance(node: Link, side: bool, deltac: int,
                       ghost ctx: Context, ghost t: Tree, ghost h: int, ghost n: Tree, ghost hn: int)
      returns (delta: int)
      requires AtHole(ctx, node, side, t, n) && Balanced(balance, t) && ContextBalanced(balance, ctx, h)
      requires node !in Inorder(t) && node !in Inorder(ctx.sibling) && !InContext(ctx.up, node)
      requires -1 <= deltac <= 1 && Height(t) == h + deltac && hn == 1 + Max(h, Height(ctx.sibling))
      modifies `balance
      ensures |balance| == |old(balance)| && 0 <= node < |balance|
      ensures ContextBalanced(balance, ctx.up, hn) && Balanced(balance, n.left) && Balanced(balance, n.right)
      ensures balance[node] == Height(n.right) - Height(n.left) && -2 <= balance[node] <= 2
      ensures Height(n) == hn + delta
      ensures -1 <= delta <= 1 && (balance[node] == 2 || balance[node] == -2 ==> 0 <= delta)
    {
      BumpShape(node, side, t, ctx.sibling, h, deltac);
      ghost var b := balance;
      delta := NodeDelta(balance[node], side, deltac);
      balance := balance[node := balance[node] - OptNeg(deltac, side)];
      BumpElsewhere(b, node, side, ctx, t, h, n, hn);
    }

    lemma BumpElsewhere(b: seq<int>, node: Link, side: bool, ctx: Context, t: Tree, h: int, n: Tree, hn: int)
      requires AtHole(ctx, node, side, t, n) && Balanced(b, t) && ContextBalanced(b, ctx, h)
      requires node !in Inorder(t) && node !in Inorder(ctx.sibling) && !InContext(ctx.up, node)
      requires hn == 1 + Max(h, Height(ctx.sibling)) && SameExcept(b, balance, node, node, node)
      ensures ContextBalanced(balance, ctx.up, hn) && Balanced(balance, n.left) && Balanced(balance, n.right)
    {
      BalancedFrame(b, balance, t);
      BalancedFrame(b, balance, ctx.sibling);
      ContextBalancedElsewhere(b, balance, ctx.up, hn, node);
    }

    /** The transformations in CAvl_rebalance, for a node whose balance factor may be 2 or -2. */
    method RestoreNode(node: Link, ghost n: Tree, ghost up: Context, ghost h: int)
      returns (delta: int, top: Link, ghost n': Tree)
      requires Associative(op) && Sized() && n.Node? && n.id == node && Focused(up, n)
      requires Balanced(balance, n.left) && Balanced(balance, n.right) && ContextBalanced(balance, up, h)
      requires 0 <= node < |balance| && balance[node] == Height(n.right) - Height(n.left) && -2 <= balance[node] <= 2
      modifies `root, `ptr, `count, `assoc, `balance
      ensures Sized() && n'.Node? && n'.id == top && Focused(up, n')
      ensures Balanced(balance, n') && ContextBalanced(balance, up, h)
      ensures Height(n') == Height(n) + delta && -1 <= delta <= 0
      ensures -1 <= old(balance[node]) <= 1 ==> delta == 0
      ensures Inorder(n') == Inorder(n)
    {
      if balance[node] == 2 || balance[node] == -2 {
        var bside := balance[node] == 2;
        HeavyChild(n, bside, up);
        assert n == Make(node, bside, Child(n, bside), Child(n, !bside));
        delta, top, n' := RestoreHeavy(node, bside, ptr.At(node, bside), up, Child(n, bside), Child(n, !bside), h);
      } else {
        delta, top, n' := 0, node, n;
      }
    }

    lemma HeavyChild(n: Tree, bside: bool, up: Context)
      requires Links(ptr, n, RootLink(n), ParentLink(up)) && n.Node?
      ensures ptr.Has(n.id) && ptr.At(n.id, bside) == RootLink(Child(n, bside))
      ensures Links(ptr, Child(n, bside), RootLink(Child(n, bside)), n.id)
    {
    }

    /** The switch in CAvl_rebalance, for a node whose subtree on bside is too high. */
    method RestoreHeavy(node: Link, bside: bool, child: Link,
                        ghost up: Context, ghost heavy: Tree, ghost light: Tree, ghost h: int)
      returns (delta: int, top: Link, ghost n': Tree)
      requires Associative(op) && Sized() && Focused(up, Make(node, bside, heavy, light))
      requires heavy.Node? && heavy.id == child && Links(ptr, heavy, child, node) && 0 <= node < |balance|
      requires Balanced(balance, heavy) && Balanced(balance, light) && ContextBalanced(balance, up, h)
      requires Height(heavy) == Height(light) + 2
      modifies `root, `ptr, `count, `assoc, `balance
      ensures Sized() && n'.Node? && n'.id == top && Focused(up, n')
      ensures Balanced(balance, n') && ContextBalanced(balance, up, h)
      ensures Height(n') == Height(light) + 3 + delta && -1 <= delta <= 0
      ensures Inorder(n') == Inorder(Make(node, bside, heavy, light))
    {
      ghost var outer, inner := Child(heavy, bside), Child(heavy, !bside);
      assert heavy == Make(child, bside, outer, inner);
      if Facing(bside, balance[child]) >= 0 {
        RotateInorder(node, child, !bside, light, inner, outer);
        MakeFlip(child, bside, inner, outer);
        n' := Make(child, !bside, Make(node, bside, inner, light), outer);
        delta := RebalanceSingle(node, bside, child, up, outer, inner, light, h);
        top := child;
      } else {
        BalancedMake(balance, child, bside, outer, inner);
        HeavyChild(heavy, !bside, Step(node, bside, light, up));
        top, n' := RestoreInner(node, bside, child, up, outer, inner, light, h);
        delta := -1;
      }
    }

    method RestoreInner(node: Link, bside: bool, child: Link,
                        ghost up: Context, ghost outer: Tree, ghost inner: Tree, ghost light: Tree, ghost h: int)
      returns (grand: Link, ghost n': Tree)
      requires Associative(op) && Sized() && Focused(up, Make(node, bside, Make(child, bside, outer, inner), light))
      requires 0 <= node < |balance| && 0 <= child < |balance| && ptr.Has(child)
      requires inner.Node? && ptr.At(child, !bside) == inner.id
      requires Balanced(balance, Make(child, bside, outer, inner)) && Balanced(balance, light)
      requires Balanced(balance, inner) && ContextBalanced(balance, up, h)
      requires Height(Make(child, bside, outer, inner)) == Height(light) + 2
      requires Facing(bside, balance[child]) == -1
      modifies `root, `ptr, `count, `assoc, `balance
      ensures Sized() && n'.Node? && n'.id == grand && Focused(up, n')
      ensures Balanced(balance, n') && ContextBalanced(balance, up, h)
      ensures Height(n') == Height(light) + 2
      ensures Inorder(n') == Inorder(Make(node, bside, Make(child, bside, outer, inner), light))
    {
      grand := ptr.At(child, !bside);
      ghost var far, near := Child(inner, bside), Child(inner, !bside);
      assert inner == Make(grand, bside, far, near);
      DoubleInorder(node, bside, child, grand, outer, far, near, light);
      n' := Make(grand, !bside, Make(node, bside, near, light), Make(child, !bside, far, outer));
      RebalanceDouble(node, bside, child, grand, up, outer, far, near, light, h);
    }

    lemma DoubleInorder(node: Link, bside: bool, child: Link, grand: Link,
                        outer: Tree, far: Tree, near: Tree, light: Tree)
      ensures Inorder(Make(grand, !bside, Make(node, bside, near, light), Make(child, !bside, far, outer)))
           == Inorder(Make(node, bside, Make(child, bside, outer, Make(grand, bside, far, near)), light))
    {
      var lower := Make(child, !bside, far, outer);
      RotateInorder(child, grand, bside, outer, far, near);
      MakeFlip(child, bside, Make(grand, bside, far, near), outer);
      RotateInorder(node, grand, !bside, light, near, lower);
      MakeFlip(grand, bside, near, lower);
    }

    lemma RebalanceDone(ctx: Context, t: Tree)
      requires Focused(ctx, t) && Balanced(balance, t) && ContextBalanced(balance, ctx, Height(t))
      ensures Focused(Top, Plug(ctx, t)) && Balanced(balance, Plug(ctx, t))
    {
      Focus(ctx, t);
      BalancedPlug(balance, ctx, t);
    }

    /** CAvl_rebalance: the child of node on side changed its height by deltac. */
    method Rebalance(node: Link, side: bool, deltac: int, ghost ctx: Context, ghost t: Tree, ghost h: int)
      returns (ghost whole: Tree)
      requires Associative(op) && Sized() && -1 <= deltac <= 1
      requires ctx.Step? && ctx.id == node && ctx.side == side && Focused(ctx, t)
      requires Balanced(balance, t) && ContextBalanced(balance, ctx, h) && Height(t) == h + deltac
      modifies `root, `ptr, `count, `assoc, `balance
      ensures Sized() && Focused(Top, whole) && Balanced(balance, whole)
      ensures Inorder(whole) == Inorder(Plug(ctx, t))
      decreases ctx, 0
    {
      if deltac == 0 {
        whole := Plug(ctx, t);
        RebalanceDone(ctx, t);
        return;
      }
      ghost var n, hn := Make(node, side, t, ctx.sibling), 1 + Max(h, Height(ctx.sibling));
      var delta, top, n' := RebalanceNode(node, side, deltac, ctx, t, h, n, hn);
      SameInorder(ctx.up, n', n);
      whole := RebalanceAbove(top, delta, ctx.up, n', hn);
    }

    /** Its call for the parent, or its end at the root. */
    method RebalanceAbove(top: Link, delta: int, ghost up: Context, ghost n: Tree, ghost hn: int) returns (ghost whole: Tree)
      requires Associative(op) && Sized() && -1 <= delta <= 1
      requires n.Node? && n.id == top && Focused(up, n)
      requires Balanced(balance, n) && ContextBalanced(balance, up, hn) && Height(n) == hn + delta
      modifies `root, `ptr, `count, `assoc, `balance
      ensures Sized() && Focused(Top, whole) && Balanced(balance, whole)
      ensures Inorder(whole) == Inorder(Plug(up, n))
      decreases up, 1
    {
      TopOfSubtree(up, n);
      var nodeParent := ptr.parent[top];
      if nodeParent != NULL {
        whole := Rebalance(nodeParent, top == ptr.child1[nodeParent], delta, up, n, hn);
      } else {
        whole := n;
      }
    }

    /** What the parent link of the entry on top of a subtree says of its context. */
    lemma TopOfSubtree(up: Context, n: Tree)
      requires Focused(up, n) && n.Node?
      ensures ptr.Has(n.id) && ptr.parent[n.id] == ParentLink(up) && (up.Top? <==> ParentLink(up) == NULL)
      ensures up.Step? ==> ptr.Has(up.id) && (n.id == ptr.child1[up.id]) == up.side
    {
      if up.Step? {
        HoleSide(ptr, up, n, root);
      }
    }

    // ----- insertion -----

    /** The counts above a hole whose subtree sums to stale, before they are fixed. */
    ghost predicate CountsStale(ctx: Context, stale: Option<nat>)
      reads `count
    {
      ContextSummed(PLUS, ONE, count, ctx, stale)
    }

    ghost predicate AssocsStale(ctx: Context)
      reads `assoc
    {
      SiblingsSummed(op, value, assoc, ctx)
    }

    ghost predicate BothSummed(t: Tree)
      reads `count, `assoc
    {
      Summed(PLUS, ONE, count, t) && Summed(op, value, assoc, t)
    }

    /** One ancestor's count moves by change, which is how far its subtree's size moved. */
    method AdjustCount(p: Link, change: int, ghost side: bool, ghost s: Tree, ghost up: Context, ghost t: Tree,
                       ghost stale: Option<nat>)
      requires Sized() && Distinct(Inorder(Plug(Step(p, side, s, up), t)))
      requires CountsStale(Step(p, side, s, up), stale) && Summed(PLUS, ONE, count, t)
      requires SumOr(0, stale) + change == Size(t)
      modifies `count
      ensures Sized() && Summed(PLUS, ONE, count, Make(p, side, t, s))
      ensures CountsStale(up, Some(old(count[p]))) && old(count[p]) + change == Size(Make(p, side, t, s))
    {
      NodeOutside(p, side, s, up, t);
      CountIsSize(t);
      CountIsSize(s);
      CombineCounts(stale, TreeSum(PLUS, ONE, s));
      CombineCounts(TreeSum(PLUS, ONE, s), stale);
      MakeSize(p, side, t, s);
      ghost var before := count;
      count := count[p := count[p] + change];
      SummedFrame(PLUS, ONE, before, count, t);
      SummedFrame(PLUS, ONE, before, count, s);
      CountIsSize(Make(p, side, t, s));
      SumMake(PLUS, ONE, count, p, side, t, s);
      ContextSummedFrame(PLUS, ONE, before, count, up, Some(before[p]));
    }

    lemma MakeSize(p: Link, side: bool, t: Tree, s: Tree)
      ensures Size(Make(p, side, t, s)) == Size(t) + 1 + Size(s)
    {
    }

    method AdjustAssoc(p: Link, ghost side: bool, ghost s: Tree, ghost up: Context, ghost t: Tree)
      requires Sized() && Linked(Step(p, side, s, up), t)
      requires AssocsStale(Step(p, side, s, up)) && Summed(op, value, assoc, t)
      modifies `assoc
      ensures Sized() && Summed(op, value, assoc, Make(p, side, t, s)) && AssocsStale(up)
    {
      NodeOutside(p, side, s, up, t);
      ghost var before := assoc;
      UpdateAssoc(p, Make(p, side, t, s));
      SiblingsSummedFrame(op, value, before, assoc, up);
    }

    /** The loop that walks from the parent of a changed subtree t to the root, moving every
        count by change and recomputing every assoc. */
    method FixAncestors(c: Link, change: int, ghost ctx: Context, ghost t: Tree, ghost stale: Option<nat>)
      requires Sized() && Linked(ctx, t) && c == ParentLink(ctx)
      requires BothSummed(t) && CountsStale(ctx, stale) && AssocsStale(ctx)
      requires SumOr(0, stale) + change == Size(t)
      modifies `count, `assoc
      ensures Sized() && Focused(ctx, t)
    {
      var p := c;
      ghost var cx, tt, st := ctx, t, stale;
      while p != NULL
        invariant Sized() && Linked(cx, tt) && p == ParentLink(cx)
        invariant BothSummed(tt) && CountsStale(cx, st) && AssocsStale(cx)
        invariant SumOr(0, st) + change == Size(tt)
        invariant Plug(cx, tt) == Plug(ctx, t)
        decreases cx
      {
        ghost var n := Make(p, cx.side, tt, cx.sibling);
        st := FixAncestor(p, change, cx, tt, st, n);
        cx, tt := cx.up, n;
        p := ptr.parent[p];
      }
      assert cx.Top?;
      Focus(ctx, t);
    }

    method FixAncestor(p: Link, change: int, ghost cx: Context, ghost tt: Tree, ghost st: Option<nat>, ghost n: Tree)
      returns (ghost st': Option<nat>)
      requires Sized() && Linked(cx, tt) && cx.Step? && p == cx.id && n == Make(p, cx.side, tt, cx.sibling)
      requires BothSummed(tt) && CountsStale(cx, st) && AssocsStale(cx) && SumOr(0, st) + change == Size(tt)
      modifies `count, `assoc
      ensures Sized() && Linked(cx.up, n) && ptr.Has(p) && ptr.parent[p] == ParentLink(cx.up)
      ensures BothSummed(n) && CountsStale(cx.up, st') && AssocsStale(cx.up) && SumOr(0, st') + change == Size(n)
    {
      LinksMake(ptr, p, cx.side, tt, cx.sibling, p, ParentLink(cx.up));
      st' := Some(count[p]);
      AdjustCount(p, change, cx.side, cx.sibling, cx.up, tt, st);
      AdjustAssoc(p, cx.side, cx.sibling, cx.up, tt);
    }

    /** Everything an insertion does once it knows the place: node goes into the hole below c. */
    method Attach(node: Link, c: Link, side: bool, ghost s: Tree, ghost up: Context)
      requires Associative(op) && Sized() && ptr.Has(node)
      requires Focused(Step(c, side, s, up), Leaf) && ContextBalanced(balance, Step(c, side, s, up), 0)
      requires !InContext(Step(c, side, s, up), node)
      modifies this
      ensures Valid()
      ensures Entries() == Before(Step(c, side, s, up)) + [node] + After(Step(c, side, s, up))
    {
      PlantLeaf(node, c, side, s, up);
      InorderSingle(node);
      InorderPlug(Step(c, side, s, up), Node(node, Leaf, Leaf));
      ghost var whole := Rebalance(c, side, 1, Step(c, side, s, up), Node(node, Leaf, Leaf), 0);
      SetTree(whole);
    }

    ghost method SetTree(whole: Tree)
      requires Associative(op) && Sized() && Focused(Top, whole) && Balanced(balance, whole)
      modifies `tree
      ensures Valid() && Entries() == Inorder(whole)
    {
      tree := whole;
    }

    /** The assignments that make node a leaf, and the walk up. */
    method PlantLeaf(node: Link, c: Link, side: bool, ghost s: Tree, ghost up: Context)
      requires Sized() && ptr.Has(node)
      requires Focused(Step(c, side, s, up), Leaf) && ContextBalanced(balance, Step(c, side, s, up), 0)
      requires !InContext(Step(c, side, s, up), node)
      modifies `ptr, `balance, `count, `assoc
      ensures Sized() && Focused(Step(c, side, s, up), Node(node, Leaf, Leaf))
      ensures Balanced(balance, Node(node, Leaf, Leaf)) && ContextBalanced(balance, Step(c, side, s, up), 0)
    {
      InorderSingle(node);
      LinkLeaf(node, c, side, s, up);
      InitLeaf(node, Step(c, side, s, up));
      FixAncestors(c, 1, Step(c, side, s, up), Node(node, Leaf, Leaf), None);
    }

    method LinkLeaf(node: Link, c: Link, side: bool, ghost s: Tree, ghost up: Context)
      requires Sized() && ptr.Has(node) && Linked(Step(c, side, s, up), Leaf)
      requires !InContext(Step(c, side, s, up), node)
      modifies `ptr
      ensures Sized() && Linked(Step(c, side, s, up), Node(node, Leaf, Leaf))
    {
      ghost var m, hole, leaf := ptr, Step(c, side, s, up), Node(node, Leaf, Leaf);
      assert InContext(hole, c);
      ptr := ptr.SetChild(c, side, node);
      ptr := ptr.SetParent(node, c);
      ptr := ptr.SetChild(node, false, NULL);
      ptr := ptr.SetChild(node, true, NULL);
      ContextOfPlug(hole, Leaf);
      ContextLinksRefill(m, ptr, hole, NULL, node, root, root);
      DistinctInsert(hole, node);
    }

    lemma DistinctInsert(hole: Context, node: Link)
      requires Distinct(Inorder(Plug(hole, Leaf))) && !InContext(hole, node)
      ensures Distinct(Inorder(Plug(hole, Node(node, Leaf, Leaf))))
    {
      InorderPlug(hole, Leaf);
      InorderPlug(hole, Node(node, Leaf, Leaf));
      InorderSingle(node);
      DistinctAdd(Before(hole), After(hole), node);
    }

    method InitLeaf(node: Link, ghost hole: Context)
      requires Sized() && 0 <= node < |balance| && !InContext(hole, node)
      requires Counted(hole, Leaf) && Associated(hole, Leaf) && ContextBalanced(balance, hole, 0)
      modifies `balance, `count, `assoc
      ensures Sized()
      ensures BothSummed(Node(node, Leaf, Leaf)) && CountsStale(hole, None) && AssocsStale(hole)
      ensures Balanced(balance, Node(node, Leaf, Leaf)) && ContextBalanced(balance, hole, 0)
    {
      ghost var b, n, a := balance, count, assoc;
      balance := balance[node := 0];
      count := count[node := 1];
      assoc := assoc[node := value(node)];
      ContextBalancedFrame(b, balance, hole, 0);
      ContextSummedFrame(PLUS, ONE, n, count, hole, None);
      ContextSummedFrame(op, value, a, assoc, hole, None);
      ContextSiblings(op, value, assoc, hole, None);
    }

    // ----- searching by key -----

    /** A position in the tree that the search for key k has reached. */
    ghost predicate Searching(k: int, ctx: Context, t: Tree)
      reads this
    {
      && Focused(ctx, t) && Plug(ctx, t) == tree
      && AllBelow(key, Before(ctx), k) && AllAbove(key, After(ctx), k)
    }

    lemma SearchStep(k: int, ctx: Context, t: Tree)
      requires Ordered() && Searching(k, ctx, t) && t.Node? && key(t.id) != k
      ensures ptr.Has(t.id)
      ensures var side := k > key(t.id);
        && Searching(k, Step(t.id, side, Child(t, !side), ctx), Child(t, side))
        && ptr.At(t.id, side) == RootLink(Child(t, side))
    {
      DescendContext(key, ctx, t, k);
      StepDown(t, k > key(t.id), ctx);
    }

    lemma StepDown(t: Tree, side: bool, ctx: Context)
      requires Focused(ctx, t) && t.Node?
      ensures ptr.Has(t.id) && ptr.At(t.id, side) == RootLink(Child(t, side))
      ensures var down := Step(t.id, side, Child(t, !side), ctx);
        Focused(down, Child(t, side)) && Plug(down, Child(t, side)) == Plug(ctx, t)
    {
      assert t == Make(t.id, side, Child(t, side), Child(t, !side));
      ZipDown(t.id, side, Child(t, !side), ctx, Child(t, side));
      HeavyChild(t, side, ctx);
    }

    /** The loop of CAvl_Insert, CAvl_Lookup and CAvl_LookupExact: stops at an entry with the key,
        or at the entry below which one with the key belongs. */
    method Search(k: int) returns (found: bool, c: Link, side: bool, ghost s: Tree, ghost up: Context, ghost p: nat)
      requires Valid() && Ordered() && root != NULL
      ensures Splits(key, Entries(), p, k) && Entries()[p] == c && found == (key(c) == k)
      ensures !found ==>
        && Searching(k, Step(c, side, s, up), Leaf) && side == (k > key(c))
        && |Before(Step(c, side, s, up))| == if side then p + 1 else p
    {
      ghost var t := tree;
      up := Top;
      c := root;
      while key(c) != k && ptr.At(c, k > key(c)) != NULL
        invariant t.Node? && c == t.id && Searching(k, up, t) && ptr.Has(c)
        decreases t
      {
        SearchStep(k, up, t);
        side := k > key(c);
        up, t := Step(c, side, Child(t, !side), up), Child(t, side);
        c := ptr.At(c, side);
        HeavyChild(t, true, up);
      }
      found, side := key(c) == k, k > key(c);
      s, p := Child(t, !side), |Before(up)| + Size(t.left);
      SearchEnds(k, up, t);
    }

    lemma SearchEnds(k: int, ctx: Context, t: Tree)
      requires Ordered() && Searching(k, ctx, t) && t.Node? && ptr.Has(t.id)
      requires key(t.id) == k || ptr.At(t.id, k > key(t.id)) == NULL
      ensures var p := |Before(ctx)| + Size(t.left);
        Splits(key, Entries(), p, k) && Entries()[p] == t.id
      ensures key(t.id) != k ==>
        var side := k > key(t.id);
        var hole := Step(t.id, side, Child(t, !side), ctx);
        Searching(k, hole, Leaf) && |Before(hole)| == |Before(ctx)| + Size(t.left) + if side then 1 else 0
    {
      TopEntry(ctx, t);
      if key(t.id) != k {
        SearchStep(k, ctx, t);
        HoleSplits(key, Step(t.id, k > key(t.id), Child(t, k <= key(t.id)), ctx), k);
      }
    }

    /** CAvl_Insert: node goes where its key belongs, unless an entry has its key already. The
        reference is that entry, or the neighbour below which node was put. */
    method Insert(node: Link) returns (inserted: bool, ref: Link, ghost at: nat)
      requires Valid() && Ordered() && ptr.Has(node)
      modifies this
      ensures Valid() && Ordered()
      ensures inserted <==> !KeyTaken(key, old(Entries()), key(node))
      ensures !inserted ==> unchanged(this) && ref in Entries() && key(ref) == key(node)
      ensures inserted ==> Spliced(old(Entries()), Entries(), at, node)
      ensures inserted ==> if old(Entries()) == [] then ref == NULL else Neighbour(old(Entries()), at, ref)
    {
      if root == NULL {
        AttachRoot(node);
        return true, NULL, 0;
      }
      inserted, ref, at := InsertNonempty(node);
    }

    method InsertNonempty(node: Link) returns (inserted: bool, ref: Link, ghost at: nat)
      requires Valid() && Ordered() && ptr.Has(node) && root != NULL
      modifies this
      ensures Valid() && Ordered() && old(Entries()) != []
      ensures inserted <==> !KeyTaken(key, old(Entries()), key(node))
      ensures !inserted ==> unchanged(this) && ref in Entries() && key(ref) == key(node)
      ensures inserted ==> Spliced(old(Entries()), Entries(), at, node) && Neighbour(old(Entries()), at, ref)
    {
      var found, c, side;
      ghost var s, up, p;
      found, c, side, s, up, p := Search(key(node));
      SplitsTaken(key, Entries(), p, key(node));
      if found {
        return false, c, p;
      }
      at := if side then p + 1 else p;
      InsertBelow(node, c, side, s, up);
      return true, c, at;
    }

    method InsertBelow(node: Link, c: Link, side: bool, ghost s: Tree, ghost up: Context)
      requires Valid() && Ordered() && ptr.Has(node) && Searching(key(node), Step(c, side, s, up), Leaf)
      modifies this
      ensures Valid() && Ordered()
      ensures Spliced(old(Entries()), Entries(), |Before(Step(c, side, s, up))|, node)
    {
      ghost var hole := Step(c, side, s, up);
      HoleSplits(key, hole, key(node));
      assert node in Before(hole) ==> key(node) < key(node);
      assert node in After(hole) ==> key(node) < key(node);
      ghost var before := Entries();
      InsertHole(node, c, side, s, up);
      assert before[..|Before(hole)|] == Before(hole) && before[|Before(hole)|..] == After(hole);
      IncreasingInsert(key, Before(hole), After(hole), node);
    }

    method AttachRoot(node: Link)
      requires Valid() && root == NULL && ptr.Has(node)
      modifies this
      ensures Valid() && old(Entries()) == [] && Entries() == [node]
    {
      assert tree.Leaf?;
      root := node;
      ptr := ptr.SetParent(node, NULL);
      ptr := ptr.SetChild(node, false, NULL);
      ptr := ptr.SetChild(node, true, NULL);
      balance := balance[node := 0];
      count := count[node := 1];
      assoc := assoc[node := value(node)];
      InorderSingle(node);
      SetTree(Node(node, Leaf, Leaf));
    }

    /** CAvl_Lookup: the entry with the key, or one next to where it would be. */
    method Lookup(k: int) returns (c: Link, ghost p: nat)
      requires Valid() && Ordered()
      ensures c == NULL <==> Entries() == []
      ensures c != NULL ==> Splits(key, Entries(), p, k) && Entries()[p] == c
    {
      if root == NULL {
        assert tree.Leaf?;
        return NULL, 0;
      }
      var found, side;
      ghost var s, up;
      found, c, side, s, up, p := Search(k);
      EntryNotNull(p);
    }

    lemma EntryNotNull(p: nat)
      requires Valid() && p < |Entries()|
      ensures ptr.Has(Entries()[p])
    {
      var ctx, t := LocateAt(Top, tree, p);
      Focus(ctx, t);
    }

    /** CAvl_LookupExact */
    method LookupExact(k: int) returns (c: Link)
      requires Valid() && Ordered()
      ensures c == NULL <==> !KeyTaken(key, Entries(), k)
      ensures c != NULL ==> c in Entries() && key(c) == k
    {
      if root == NULL {
        assert tree.Leaf?;
        return NULL;
      }
      var found, side;
      ghost var s, up, p;
      found, c, side, s, up, p := Search(k);
      SplitsTaken(key, Entries(), p, k);
      EntryNotNull(p);
      if !found {
        c := NULL;
      }
    }

    // ----- positions: next, previous, first, last -----

    /** What stands for position i: the entry there, or the null reference beyond either end. */
    ghost function EntryAt(i: int): Link
      reads `tree
    {
      if 0 <= i < |Entries()| then Entries()[i] else NULL
    }

    /** node is on top of t, in the hole of ctx. */
    ghost predicate Standing(ctx: Context, t: Tree, node: Link)
      reads `tree, `root, `ptr, `count, `assoc
    {
      Focused(ctx, t) && Plug(ctx, t) == tree && t.Node? && t.id == node && ptr.Has(node)
    }

    lemma Stand(i: nat) returns (ctx: Context, t: Tree)
      requires Valid() && i < |Entries()|
      ensures Standing(ctx, t, Entries()[i]) && |Before(ctx)| + Size(t.left) == i
    {
      ctx, t := LocateAt(Top, tree, i);
      Focus(ctx, t);
    }

    lemma EntryHere(ctx: Context, t: Tree)
      requires t.Node? && Plug(ctx, t) == tree
      ensures EntryAt(|Before(ctx)| + Size(t.left)) == t.id
    {
      TopEntry(ctx, t);
    }

    lemma StandDown(ctx: Context, t: Tree, side: bool)
      requires t.Node? && Standing(ctx, t, t.id)
      ensures ptr.At(t.id, side) == RootLink(Child(t, side))
      ensures Child(t, side).Node? ==>
        Standing(Step(t.id, side, Child(t, !side), ctx), Child(t, side), Child(t, side).id)
    {
      StepDown(t, side, ctx);
      if Child(t, side).Node? {
        HeavyChild(Child(t, side), side, Step(t.id, side, Child(t, !side), ctx));
      }
    }

    lemma StandUp(ctx: Context, t: Tree)
      requires t.Node? && Standing(ctx, t, t.id)
      ensures ptr.parent[t.id] == ParentLink(ctx)
      ensures ctx.Step? ==>
        && Standing(ctx.up, Make(ctx.id, ctx.side, t, ctx.sibling), ctx.id)
        && (ptr.child1[ctx.id] == t.id) == ctx.side && (ptr.child0[ctx.id] == t.id) == !ctx.side
    {
      if ctx.Step? {
        HoleSide(ptr, ctx, t, root);
        ZipUp(ctx.id, ctx.side, ctx.sibling, ctx.up, t);
        LinksMake(ptr, ctx.id, ctx.side, t, ctx.sibling, ctx.id, ParentLink(ctx.up));
      }
    }

    /** CAvl_subtree_min: down to the first entry of the subtree; nothing before it changes. */
    method SubtreeMin(n: Link, ghost ctx: Context, ghost t: Tree)
      returns (r: Link, ghost ctx': Context, ghost t': Tree)
      requires Standing(ctx, t, n)
      ensures Standing(ctx', t', r) && t'.left.Leaf? && Before(ctx') == Before(ctx)
    {
      r, ctx', t' := n, ctx, t;
      while ptr.child0[r] != NULL
        invariant Standing(ctx', t', r) && Before(ctx') == Before(ctx)
        decreases t'
      {
        StandDown(ctx', t', false);
        r, ctx', t' := ptr.child0[r], Step(r, false, t'.right, ctx'), t'.left;
      }
      StandDown(ctx', t', false);
    }

    /** CAvl_subtree_max; path is the way to it from the top of the subtree. */
    method SubtreeMax(n: Link, ghost ctx: Context, ghost t: Tree)
      returns (r: Link, ghost path: Context, ghost t': Tree)
      requires Standing(ctx, t, n)
      ensures Standing(Append(path, ctx), t', r) && t'.right.Leaf? && Plug(path, t') == t && After(path) == []
    {
      r, path, t' := n, Top, t;
      while ptr.child1[r] != NULL
        invariant Standing(Append(path, ctx), t', r) && Plug(path, t') == t && After(path) == []
        decreases t'
      {
        StandDown(Append(path, ctx), t', true);
        r, path, t' := ptr.child1[r], Step(r, true, t'.left, path), t'.right;
      }
      StandDown(Append(path, ctx), t', true);
    }

    /** CAvl_GetFirst */
    method GetFirst() returns (r: Link)
      requires Valid()
      ensures r == EntryAt(0)
    {
      if root == NULL {
        assert tree.Leaf?;
        return NULL;
      }
      ghost var ctx', t';
      r, ctx', t' := SubtreeMin(root, Top, tree);
      TopEntry(ctx', t');
    }

    /** CAvl_GetLast */
    method GetLast() returns (r: Link)
      requires Valid()
      ensures r == EntryAt(|Entries()| - 1)
    {
      if root == NULL {
        assert tree.Leaf?;
        return NULL;
      }
      ghost var path, t';
      r, path, t' := SubtreeMax(root, Top, tree);
      AppendInorder(path, Top);
      TopEntry(Append(path, Top), t');
    }

    /** CAvl_GetNext */
    method GetNext(node: Link, ghost i: nat) returns (next: Link)
      requires Valid() && i < |Entries()| && node == Entries()[i]
      ensures next == EntryAt(i + 1)
    {
      ghost var ctx, t := Stand(i);
      StandDown(ctx, t, true);
      if ptr.child1[node] != NULL {
        next := FirstOfRight(ptr.child1[node], ctx, t, i);
      } else {
        assert Inorder(t) == Inorder(t.left) + [node] + [];
        next := ClimbFromRight(node, ctx, t, i);
      }
    }

    method FirstOfRight(child: Link, ghost ctx: Context, ghost t: Tree, ghost i: nat) returns (next: Link)
      requires t.Node? && |Before(ctx)| + Size(t.left) == i
      requires Standing(Step(t.id, true, t.left, ctx), t.right, child)
      ensures next == EntryAt(i + 1)
    {
      ghost var ctx', t';
      next, ctx', t' := SubtreeMin(child, Step(t.id, true, t.left, ctx), t.right);
      TopEntry(ctx', t');
    }

    method ClimbFromRight(node: Link, ghost ctx: Context, ghost t: Tree, ghost i: nat) returns (next: Link)
      requires Standing(ctx, t, node) && |Before(ctx)| + Size(t) == i + 1
      ensures next == EntryAt(i + 1)
    {
      next := node;
      ghost var cx, tt := ctx, t;
      StandUp(cx, tt);
      while ptr.parent[next] != NULL && next == ptr.child1[ptr.parent[next]]
        invariant Standing(cx, tt, next) && |Before(cx)| + Size(tt) == i + 1
        invariant ptr.parent[next] == ParentLink(cx) && (cx.Step? ==> ptr.Has(cx.id))
        decreases cx
      {
        StandUp(cx, tt);
        next := ptr.parent[next];
        cx, tt := cx.up, Make(cx.id, cx.side, tt, cx.sibling);
        StandUp(cx, tt);
      }
      StandUp(cx, tt);
      InorderPlug(cx, tt);
      next := ptr.parent[next];
    }

    /** CAvl_GetPrev */
    method GetPrev(node: Link, ghost i: nat) returns (prev: Link)
      requires Valid() && i < |Entries()| && node == Entries()[i]
      ensures prev == EntryAt(i - 1)
    {
      ghost var ctx, t := Stand(i);
      StandDown(ctx, t, false);
      if ptr.child0[node] != NULL {
        ghost var c := Step(node, false, t.right, ctx);
        ghost var path, t';
        prev, path, t' := SubtreeMax(ptr.child0[node], c, t.left);
        LastOfLeft(ctx, t, path, t', i);
      } else {
        prev := ClimbFromLeft(node, ctx, t, i);
      }
    }

    lemma LastOfLeft(ctx: Context, t: Tree, path: Context, t': Tree, i: nat)
      requires t.Node? && t'.Node? && t'.right.Leaf? && Plug(path, t') == t.left && After(path) == []
      requires Plug(ctx, t) == tree && |Before(ctx)| + Size(t.left) == i
      ensures EntryAt(i - 1) == t'.id
    {
      InorderPlug(path, t');
      InorderPlug(ctx, t);
      assert Inorder(t.left)[Size(t.left) - 1] == t'.id;
    }

    method ClimbFromLeft(node: Link, ghost ctx: Context, ghost t: Tree, ghost i: nat) returns (prev: Link)
      requires Standing(ctx, t, node) && |Before(ctx)| == i
      ensures prev == EntryAt(i - 1)
    {
      prev := node;
      ghost var cx, tt := ctx, t;
      StandUp(cx, tt);
      while ptr.parent[prev] != NULL && prev == ptr.child0[ptr.parent[prev]]
        invariant Standing(cx, tt, prev) && |Before(cx)| == i
        invariant ptr.parent[prev] == ParentLink(cx) && (cx.Step? ==> ptr.Has(cx.id))
        decreases cx
      {
        StandUp(cx, tt);
        prev := ptr.parent[prev];
        cx, tt := cx.up, Make(cx.id, cx.side, tt, cx.sibling);
        StandUp(cx, tt);
      }
      StandUp(cx, tt);
      InorderPlug(cx, tt);
      prev := ptr.parent[prev];
    }

    // ----- bounding entries of a key -----

    /** CAvl_GetFirstGreater: the entries from at on are those with a greater key. */
    method GetFirstGreater(k: int) returns (c: Link, ghost at: nat)
      requires Valid() && Ordered()
      ensures at <= |Entries()| && forall j | 0 <= j < |Entries()| :: k < key(Entries()[j]) <==> at <= j
      ensures c == EntryAt(at)
    {
      c, at := Lookup(k);
      if c == NULL {
        return c, 0;
      }
      if k >= key(c) {
        c := GetNext(c, at);
        at := at + 1;
      }
    }

    /** CAvl_GetLastLesser: the entries before at are those with a smaller key. */
    method GetLastLesser(k: int) returns (c: Link, ghost at: nat)
      requires Valid() && Ordered()
      ensures at <= |Entries()| && forall j | 0 <= j < |Entries()| :: key(Entries()[j]) < k <==> j < at
      ensures c == EntryAt(at - 1)
    {
      ghost var p;
      c, p := Lookup(k);
      if c == NULL {
        return c, 0;
      }
      at := p + 1;
      if k <= key(c) {
        c := GetPrev(c, p);
        at := p;
      }
    }

    /** CAvl_GetFirstGreaterEqual */
    method GetFirstGreaterEqual(k: int) returns (c: Link, ghost at: nat)
      requires Valid() && Ordered()
      ensures at <= |Entries()| && forall j | 0 <= j < |Entries()| :: k <= key(Entries()[j]) <==> at <= j
      ensures c == EntryAt(at)
    {
      c, at := Lookup(k);
      if c == NULL {
        return c, 0;
      }
      if k > key(c) {
        c := GetNext(c, at);
        at := at + 1;
      }
    }

    /** CAvl_GetLastLesserEqual */
    method GetLastLesserEqual(k: int) returns (c: Link, ghost at: nat)
      requires Valid() && Ordered()
      ensures at <= |Entries()| && forall j | 0 <= j < |Entries()| :: key(Entries()[j]) <= k <==> j < at
      ensures c == EntryAt(at - 1)
    {
      ghost var p;
      c, p := Lookup(k);
      if c == NULL {
        return c, 0;
      }
      at := p + 1;
      if k < key(c) {
        c := GetPrev(c, p);
        at := p;
      }
    }

    // ----- counts -----

    lemma SubtreeCount(ctx: Context, t: Tree)
      requires Focused(ctx, t) && t.Node?
      ensures 0 <= t.id < |count| && count[t.id] == Size(t)
      ensures t.left.Node? ==> 0 <= t.left.id < |count| && count[t.left.id] == Size(t.left)
      ensures t.right.Node? ==> 0 <= t.right.id < |count| && count[t.right.id] == Size(t.right)
    {
      RootCount(count, t);
      if t.left.Node? { RootCount(count, t.left); }
      if t.right.Node? { RootCount(count, t.right); }
    }

    /** CAvl_child_count */
    method ChildCount(n: Link, side: bool, ghost ctx: Context, ghost t: Tree) returns (r: nat)
      requires Standing(ctx, t, n)
      ensures r == Size(Child(t, side))
    {
      StandDown(ctx, t, side);
      SubtreeCount(ctx, t);
      var c := ptr.At(n, side);
      r := if c != NULL then count[c] else 0;
    }

    /** CAvl_Count */
    method Count() returns (r: nat)
      requires Valid()
      ensures r == |Entries()|
    {
      if root != NULL {
        SubtreeCount(Top, tree);
        r := count[root];
      } else {
        assert tree.Leaf?;
        r := 0;
      }
    }

    /** CAvl_IndexOf */
    method IndexOf(node: Link, ghost i: nat) returns (index: nat)
      requires Valid() && i < |Entries()| && node == Entries()[i]
      ensures index == i
    {
      ghost var cx, tt := Stand(i);
      index := ChildCount(node, false, cx, tt);
      var c := node;
      StandUp(cx, tt);
      var paren := ptr.parent[c];
      while paren != NULL
        invariant Standing(cx, tt, c) && paren == ParentLink(cx)
        invariant |Before(cx)| + index == i
        decreases cx
      {
        StandUp(cx, tt);
        ghost var up, tu := cx.up, Make(cx.id, cx.side, tt, cx.sibling);
        SubtreeCount(cx, tt);
        SubtreeCount(up, tu);
        if c == ptr.child1[paren] {
          index := index + (count[paren] - count[c]);
        }
        StandUp(up, tu);
        c, paren := paren, ptr.parent[paren];
        cx, tt := up, tu;
      }
    }

    /** CAvl_GetAt, the inverse of IndexOf */
    method GetAt(index: nat) returns (c: Link)
      requires Valid()
      ensures c == EntryAt(index)
    {
      var n := Count();
      if index >= n {
        return NULL;
      }
      c := GetAtFrom(root, index, Top, tree);
    }

    method GetAtFrom(from: Link, index: nat, ghost ctx: Context, ghost t: Tree) returns (c: Link)
      requires Standing(ctx, t, from) && index < Size(t)
      ensures c == EntryAt(|Before(ctx)| + index)
    {
      c := from;
      var rest := index;
      ghost var cx, tt := ctx, t;
      while true
        invariant Standing(cx, tt, c) && 0 <= rest < Size(tt) && |Before(cx)| + rest == |Before(ctx)| + index
        decreases tt
      {
        var leftCount := ChildCount(c, false, cx, tt);
        if rest == leftCount {
          EntryHere(cx, tt);
          return;
        }
        if rest < leftCount {
          c, cx, tt := Descend(c, false, cx, tt);
        } else {
          SizeParts(cx, tt);
          c, cx, tt := Descend(c, true, cx, tt);
          rest := rest - (leftCount + 1);
        }
      }
    }

    /** c = CAvlDeref(arg, CAvl_link(c)[side]) */
    method Descend(n: Link, side: bool, ghost ctx: Context, ghost t: Tree)
      returns (c: Link, ghost ctx': Context, ghost t': Tree)
      requires Standing(ctx, t, n) && Size(Child(t, side)) > 0
      ensures Standing(ctx', t', c) && t' == Child(t, side)
      ensures ctx' == Step(n, side, Child(t, !side), ctx)
      ensures |Before(ctx')| == |Before(ctx)| + if side then Size(t.left) + 1 else 0
    {
      StandDown(ctx, t, side);
      SizeParts(ctx, t);
      c, ctx', t' := ptr.At(n, side), Step(n, side, Child(t, !side), ctx), Child(t, side);
    }

    /** CAvl_InsertAt: node becomes the entry at position index. */
    method InsertAt(node: Link, index: nat)
      requires Valid() && ptr.Has(node) && node !in Entries() && index <= |Entries()|
      modifies this
      ensures Valid() && Spliced(old(Entries()), Entries(), index, node)
    {
      if root == NULL {
        AttachRoot(node);
        return;
      }
      var c, side;
      ghost var s, up;
      c, side, s, up := SearchAt(index);
      InsertHole(node, c, side, s, up);
    }

    method SearchAt(index: nat) returns (c: Link, side: bool, ghost s: Tree, ghost up: Context)
      requires Valid() && root != NULL && index <= |Entries()|
      ensures var hole := Step(c, side, s, up);
        Focused(hole, Leaf) && Plug(hole, Leaf) == tree && |Before(hole)| == index
    {
      c := root;
      ghost var t := tree;
      up := Top;
      var cIdx := ChildCount(c, false, up, t);
      side := index > cIdx;
      while ptr.At(c, side) != NULL
        invariant Standing(up, t, c) && cIdx == |Before(up)| + Size(t.left) && side == (index > cIdx)
        invariant |Before(up)| <= index <= |Before(up)| + Size(t)
        decreases t
      {
        StandDown(up, t, side);
        SizeParts(up, t);
        up, t := Step(c, side, Child(t, !side), up), Child(t, side);
        c := ptr.At(c, side);
        if !side {
          var n := ChildCount(c, true, up, t);
          SizeParts(up, t);
          cIdx := cIdx - (1 + n);
        } else {
          var n := ChildCount(c, false, up, t);
          cIdx := cIdx + (1 + n);
        }
        side := index > cIdx;
      }
      StandDown(up, t, side);
      StepDown(t, side, up);
      s := Child(t, !side);
    }

    method InsertHole(node: Link, c: Link, side: bool, ghost s: Tree, ghost up: Context)
      requires Valid() && ptr.Has(node) && node !in Entries()
      requires Focused(Step(c, side, s, up), Leaf) && Plug(Step(c, side, s, up), Leaf) == tree
      modifies this
      ensures Valid() && Spliced(old(Entries()), Entries(), |Before(Step(c, side, s, up))|, node)
    {
      ghost var hole := Step(c, side, s, up);
      HoleSpliced(hole, node);
      HoleOutside(hole, node);
      BalancedPlug(balance, hole, Leaf);
      Attach(node, c, side, s, up);
    }

    // ----- associative sums -----

    /** The fold of the entries from position i up to position j. */
    ghost function Range(i: nat, j: nat): A
      requires i <= j <= |Entries()|
      reads `tree
    {
      Fold(op, zero, value, Entries()[i..j])
    }

    lemma RangeConcat(i: nat, j: nat, k: nat)
      requires Associative(op) && Identity(op, zero) && i <= j <= k <= |Entries()|
      ensures Range(i, k) == op(Range(i, j), Range(j, k))
    {
      assert Entries()[i..k] == Entries()[i..j] + Entries()[j..k];
      FoldConcat(op, zero, value, Entries()[i..j], Entries()[j..k]);
    }

    /** What the sums of an entry and of its left subtree are, by the positions they cover. */
    lemma RangeParts(ctx: Context, t: Tree, b: nat, p: nat)
      requires Associative(op) && Identity(op, zero) && Plug(ctx, t) == tree && t.Node?
      requires b == |Before(ctx)| && p == b + Size(t.left)
      ensures p < |Entries()| && Range(b, p) == SumOr(zero, TreeSum(op, value, t.left)) && Range(p, p + 1) == value(t.id)
    {
      EntriesCovered(ctx, t, b, p);
      TreeSumIsFold(op, zero, value, t.left);
      FoldOne(op, zero, value, t.id);
    }

    lemma EntriesCovered(ctx: Context, t: Tree, b: nat, p: nat)
      requires Plug(ctx, t) == tree && t.Node? && b == |Before(ctx)| && p == b + Size(t.left)
      ensures p < |Entries()| && Entries()[b..p] == Inorder(t.left) && Entries()[p..p + 1] == [t.id]
    {
      TopRange(ctx, t);
    }

    /** The sum of an entry's left subtree, which covers the positions from b up to p. */
    method LeftSum(n: Link, ghost ctx: Context, ghost t: Tree) returns (r: A, ghost b: nat, ghost p: nat)
      requires Associative(op) && Identity(op, zero) && Standing(ctx, t, n)
      ensures b == |Before(ctx)| && p == b + Size(t.left) && p < |Entries()|
      ensures r == Range(b, p) && Range(p, p + 1) == value(n) && EntryAt(p) == n
      ensures ptr.child0[n] != NULL ==> 0 <= ptr.child0[n] < |assoc|
      ensures r == if ptr.child0[n] != NULL then assoc[ptr.child0[n]] else zero
    {
      StandDown(ctx, t, false);
      EntryHere(ctx, t);
      b, p := |Before(ctx)|, |Before(ctx)| + Size(t.left);
      RangeParts(ctx, t, b, p);
      var c := ptr.child0[n];
      r := if c != NULL then assoc[c] else zero;
    }

    /** CAvl_AssocSum */
    method AssocSum() returns (r: A)
      requires Valid() && Identity(op, zero)
      ensures r == Range(0, |Entries()|)
    {
      assert Entries()[0..|Entries()|] == Entries();
      TreeSumIsFold(op, zero, value, tree);
      r := if root == NULL then zero else assoc[root];
    }

    /** CAvl_ExclusiveAssocPrefixSum: the sum of the entries before node. */
    method ExclusiveAssocPrefixSum(node: Link, ghost i: nat) returns (sum: A)
      requires Valid() && Identity(op, zero) && i < |Entries()| && node == Entries()[i]
      ensures sum == Range(0, i)
    {
      ghost var cx, tt := Stand(i);
      ghost var b, p;
      sum, b, p := LeftSum(node, cx, tt);
      assert p == i;
      sum := ClimbSum(node, sum, cx, tt, b, i);
    }

    method ClimbSum(node: Link, below: A, ghost ctx: Context, ghost t: Tree, ghost b0: nat, ghost i: nat)
      returns (sum: A)
      requires Associative(op) && Identity(op, zero) && Standing(ctx, t, node)
      requires b0 == |Before(ctx)| && b0 <= i < |Entries()| && below == Range(b0, i)
      ensures sum == Range(0, i)
    {
      ghost var cx, tt, b := ctx, t, b0;
      sum := below;
      var c := node;
      StandUp(cx, tt);
      var paren := ptr.parent[c];
      while paren != NULL
        invariant Standing(cx, tt, c) && paren == ParentLink(cx)
        invariant b == |Before(cx)| && b <= i < |Entries()| && sum == Range(b, i)
        decreases cx
      {
        sum, b := AddIfRight(c, paren, sum, cx, tt, b, i);
        StandUp(cx, tt);
        cx, tt := cx.up, Make(cx.id, cx.side, tt, cx.sibling);
        StandUp(cx, tt);
        c, paren := paren, ptr.parent[paren];
      }
    }

    method AddIfRight(c: Link, paren: Link, below: A, ghost ctx: Context, ghost t: Tree, ghost b: nat, ghost i: nat)
      returns (sum: A, ghost b': nat)
      requires Associative(op) && Identity(op, zero) && Standing(ctx, t, c) && ctx.Step? && paren == ctx.id
      requires b == |Before(ctx)| && b <= i <= |Entries()| && below == Range(b, i)
      ensures b' == |Before(ctx.up)| && b' <= b && sum == Range(b', i)
    {
      StandUp(ctx, t);
      sum, b' := below, b;
      if c == ptr.child1[paren] {
        sum, b' := AddParent(paren, sum, ctx.up, Make(ctx.id, ctx.side, t, ctx.sibling), i);
      }
    }

    /** Adds what comes before a right child's subtree: its parent's left subtree and its parent. */
    method AddParent(paren: Link, below: A, ghost up: Context, ghost t: Tree, ghost i: nat) returns (sum: A, ghost b: nat)
      requires Associative(op) && Identity(op, zero) && Standing(up, t, paren)
      requires var p := |Before(up)| + Size(t.left); p < i <= |Entries()| && below == Range(p + 1, i)
      ensures b == |Before(up)| && b <= i && sum == Range(b, i)
    {
      var left;
      ghost var p;
      left, b, p := LeftSum(paren, up, t);
      RangeConcat(p, p + 1, i);
      RangeConcat(b, p, i);
      assert IdentityAt(op, zero, Range(p, i));
      sum := op(value(paren), below);
      assert sum == Range(p, i);
      if ptr.child0[paren] != NULL {
        sum := op(assoc[ptr.child0[paren]], sum);
      }
    }

    /** The exclusive prefix sums only grow past sum. */
    ghost predicate Monotone(less: (A, A) -> bool, sum: A)
      reads `tree
    {
      forall i: nat, j: nat | i <= j <= |Entries()| :: less(sum, Range(0, i)) ==> less(sum, Range(0, j))
    }

    /** c_prefixsum: the sum of what comes before the entry c. */
    method PrefixSum(c: Link, sumOffset: A, ghost ctx: Context, ghost t: Tree) returns (prefixSum: A, ghost p: nat)
      requires Associative(op) && Identity(op, zero) && c != NULL && c == RootLink(t)
      requires Focused(ctx, t) && Plug(ctx, t) == tree
      requires |Before(ctx)| <= |Entries()| && sumOffset == Range(0, |Before(ctx)|)
      ensures t.Node? && p == |Before(ctx)| + Size(t.left) && p < |Entries()| && EntryAt(p) == c
      ensures prefixSum == Range(0, p) && op(prefixSum, value(c)) == Range(0, p + 1)
    {
      var leftSum;
      ghost var b;
      StepDown(t, false, ctx);
      leftSum, b, p := LeftSum(c, ctx, t);
      RangeConcat(0, b, p);
      RangeConcat(0, p, p + 1);
      prefixSum := op(sumOffset, leftSum);
    }

    /** sums are the exclusive prefix sums of all entries, and the sum of them all. */
    ghost predicate PrefixSums(sums: seq<A>)
      reads `tree
    {
      |sums| == |Entries()| + 1 && forall i: nat {:trigger Range(0, i)} | i < |sums| :: sums[i] == Range(0, i)
    }

    lemma AllPrefixSums() returns (sums: seq<A>)
      ensures PrefixSums(sums)
    {
      sums := seq(|Entries()| + 1, i requires 0 <= i <= |Entries()| reads this => Range(0, i));
    }

    ghost function EntryBefore(i: nat): Link
      reads `tree
    {
      EntryAt(i - 1)
    }

    /** c_prefixsum, in terms of all the sums. */
    method PrefixSumIn(c: Link, sumOffset: A, ghost ctx: Context, ghost t: Tree, ghost b: nat, ghost e: nat,
                       ghost sums: seq<A>, ghost result: Link)
      returns (prefixSum: A, ghost p: nat)
      requires Associative(op) && Identity(op, zero) && PrefixSums(sums) && c != NULL && Probing(c, ctx, t, b, e)
      requires b < |sums| && sumOffset == sums[b] && result == EntryBefore(b)
      ensures t.Node? && p == b + Size(t.left) && b <= p < e && p + 1 < |sums| && EntryAt(p) == c && result == EntryBefore(b)
      ensures prefixSum == sums[p] && op(prefixSum, value(c)) == sums[p + 1]
    {
      assert sumOffset == Range(0, b);
      prefixSum, p := PrefixSum(c, sumOffset, ctx, t);
      SizeParts(ctx, t);
    }

    /** c is on top of the subtree t of the entries b to e. */
    ghost predicate Probing(c: Link, ctx: Context, t: Tree, b: nat, e: nat)
      reads `tree, `root, `ptr, `count, `assoc
    {
      Focused(ctx, t) && Plug(ctx, t) == tree && c == RootLink(t) && b == |Before(ctx)| && e == b + Size(t)
    }

    /** The entries before b are known to have small prefix sums, those from e on great ones. */
    ghost predicate Bracketed(sums: seq<A>, sumOffset: A, b: nat, e: nat, sum: A, less: (A, A) -> bool) {
      && b <= e < |sums| && sumOffset == sums[b]
      && (b > 0 ==> !less(sum, sums[b - 1]))
      && (e + 1 < |sums| ==> less(sum, sums[e]))
    }

    /** CAvl_FindLastExclusiveAssocPrefixSumLesserEqual: exactly the first at entries have an
        exclusive prefix sum not above sum. */
    method FindLastExclusiveAssocPrefixSumLesserEqual(sum: A, less: (A, A) -> bool) returns (result: Link, ghost at: nat)
      requires Valid() && Identity(op, zero) && Monotone(less, sum)
      ensures at <= |Entries()| && forall j: nat | j < |Entries()| :: !less(sum, Range(0, j)) <==> j < at
      ensures result == EntryAt(at - 1)
    {
      result := NULL;
      at := 0;
      var c := root;
      var sumOffset := zero;
      ghost var cx, tt, end: nat := Top, tree, |Entries()|;
      ghost var sums := AllPrefixSums();
      assert sums[0] == Range(0, 0);
      while c != NULL
        invariant Probing(c, cx, tt, at, end) && Bracketed(sums, sumOffset, at, end, sum, less)
        invariant result == EntryBefore(at)
        decreases tt
      {
        result, sumOffset, c, cx, tt, at, end := Probe(result, sumOffset, c, cx, tt, at, end, sums, sum, less);
      }
      SplitAt(at, sums, sum, less);
    }

    lemma SplitAt(at: nat, sums: seq<A>, sum: A, less: (A, A) -> bool)
      requires PrefixSums(sums) && Monotone(less, sum) && at < |sums|
      requires (at > 0 ==> !less(sum, sums[at - 1])) && (at + 1 < |sums| ==> less(sum, sums[at]))
      ensures forall j: nat | j < |Entries()| :: !less(sum, Range(0, j)) <==> j < at
    {
      forall j: nat | j < |Entries()| ensures !less(sum, Range(0, j)) <==> j < at {
        var here, there := Range(0, j), Range(0, if j < at then at - 1 else at);
        if j < at {
          assert less(sum, here) ==> less(sum, there);
        } else {
          assert less(sum, there) ==> less(sum, here);
        }
      }
    }

    /** The body of its loop. */
    method Probe(result: Link, sumOffset: A, c: Link, ghost cx: Context, ghost tt: Tree, ghost at: nat, ghost end: nat,
                 ghost sums: seq<A>, sum: A, less: (A, A) -> bool)
      returns (result': Link, sumOffset': A, c': Link, ghost cx': Context, ghost tt': Tree, ghost at': nat, ghost end': nat)
      requires Associative(op) && Identity(op, zero) && PrefixSums(sums) && c != NULL
      requires Probing(c, cx, tt, at, end) && Bracketed(sums, sumOffset, at, end, sum, less)
      requires result == EntryBefore(at)
      ensures tt.Node? && (tt' == tt.left || tt' == tt.right)
      ensures Probing(c', cx', tt', at', end') && Bracketed(sums, sumOffset', at', end', sum, less)
      ensures result' == EntryBefore(at')
    {
      ghost var p;
      var prefixSum;
      prefixSum, p := PrefixSumIn(c, sumOffset, cx, tt, at, end, sums, result);
      var right := !less(sum, prefixSum);
      if right {
        result', sumOffset', at', end' := c, op(prefixSum, value(c)), p + 1, end;
        AfterEntry(c, p, at');
      } else {
        result', sumOffset', at', end' := result, sumOffset, at, p;
      }
      Narrow(sums, sumOffset, at, p, end, sum, less, sumOffset', at', end');
      Follow(c, right, cx, tt, at, p, end, at', end');
      c', cx', tt' := ptr.At(c, right), Step(c, right, Child(tt, !right), cx), Child(tt, right);
    }

    lemma AfterEntry(c: Link, p: nat, at: nat)
      requires EntryAt(p) == c && at == p + 1
      ensures c == EntryBefore(at)
    {
    }

    lemma Narrow(sums: seq<A>, sumOffset: A, b: nat, p: nat, e: nat, sum: A, less: (A, A) -> bool,
                 sumOffset': A, b': nat, e': nat)
      requires Bracketed(sums, sumOffset, b, e, sum, less) && b <= p < e
      requires if less(sum, sums[p]) then sumOffset' == sumOffset && b' == b && e' == p
               else sumOffset' == sums[p + 1] && b' == p + 1 && e' == e
      ensures Bracketed(sums, sumOffset', b', e', sum, less)
    {
    }

    /** The link of c on side leads to a subtree of the entries before p or after it. */
    lemma Follow(c: Link, side: bool, ctx: Context, t: Tree, b: nat, p: nat, e: nat, b': nat, e': nat)
      requires c != NULL && Probing(c, ctx, t, b, e) && t.Node? && p == b + Size(t.left)
      requires if side then b' == p + 1 && e' == e else b' == b && e' == p
      ensures ptr.Has(c) && Probing(ptr.At(c, side), Step(c, side, Child(t, !side), ctx), Child(t, side), b', e')
    {
      StepDown(t, side, ctx);
      SizeParts(ctx, t);
    }

    // ----- removal -----

    /** The assignments *link = to; if (to != null) parent(to) = up. */
    method AdoptLink(up: Link, side: bool, to: Link)
      requires ptr.Has(up) && (to != NULL ==> ptr.Has(to))
      modifies `ptr
      ensures ptr == Adopt(old(ptr), up, side, to)
    {
      ptr := ptr.SetChild(up, side, to);
      if to != NULL {
        ptr := ptr.SetParent(to, up);
      }
    }

    /** e takes gone's place below p, or at the root. */
    method ReplantLink(e: Link, gone: Link, p: Link)
      requires ptr.Has(e) && (p != NULL ==> ptr.Has(p))
      modifies `ptr, `root
      ensures ptr == Replant(old(ptr), e, gone, p) && root == if p == NULL then e else old(root)
    {
      ptr := ptr.SetParent(e, p);
      if p != NULL {
        ptr := ptr.SetChild(p, gone == ptr.At(p, true), e);
      } else {
        root := e;
      }
    }

    /** What CAvl_swap_for_remove may rely on for the entries it exchanges. */
    ghost predicate Swappable(node: Link, enode: Link, np: Link, ep: Link)
      reads `ptr
    {
      && Knit(ptr, node) && Knit(ptr, enode) && node != enode
      && ptr.parent[node] == np && ptr.parent[enode] == ep
      && (np != NULL ==> Knit(ptr, np)) && Knit(ptr, ep)
      && np != node && np != enode && ep != NULL && ep != enode && ep != np
    }

    /** The exchange of a parent and its child. */
    method SwapConnected(node: Link, enode: Link, np: Link, ghost ids: seq<Link>)
      requires Sized() && Swappable(node, enode, np, node)
      requires forall x | x in ids :: Knit(ptr, x)
      modifies `ptr, `root
      ensures ptr.Sized(capacity) && root == if np == NULL then enode else old(root)
      ensures forall x | x in ids :: Conjugated(old(ptr), ptr, node, enode, x)
    {
      ghost var m := ptr;
      var side := enode == ptr.At(node, true);
      var c := ptr.At(node, !side);
      AdoptLink(node, false, ptr.child0[enode]);
      AdoptLink(node, true, ptr.child1[enode]);
      ReplantLink(enode, node, np);
      ghost var m2 := ptr;
      assert m2 == SwapNearUpper(m, node, enode, np);
      forall x | x in ids ensures UpperSwapped(m, m2, node, enode, np, Swap(node, enode, x)) {
        SwapNearUpperAt(m, node, enode, np, Swap(node, enode, x));
      }
      LinkBelow(node, enode, side, c);
      forall x | x in ids ensures Conjugated(m, ptr, node, enode, x) {
        SwapNearConjugates(m, m2, node, enode, np, x);
      }
    }

    method LinkBelow(node: Link, enode: Link, side: bool, c: Link)
      requires ptr.Has(node) && ptr.Has(enode) && (c != NULL ==> ptr.Has(c))
      modifies `ptr
      ensures ptr == TakeBelow(old(ptr), node, enode, side, c)
    {
      ptr := ptr.SetChild(enode, side, node);
      ptr := ptr.SetParent(node, enode);
      AdoptLink(enode, !side, c);
    }

    /** The exchange of entries further apart. */
    method SwapSeparate(node: Link, enode: Link, np: Link, ep: Link, ghost ids: seq<Link>)
      requires Sized() && Swappable(node, enode, np, ep) && ep != node
      requires forall x | x in ids :: Knit(ptr, x)
      modifies `ptr, `root
      ensures ptr.Sized(capacity) && root == if np == NULL then enode else old(root)
      ensures forall x | x in ids :: Conjugated(old(ptr), ptr, node, enode, x)
    {
      ghost var m := ptr;
      SwapFarConjugates(m, node, enode, np, ep, node);
      ReplantLink(node, enode, ep);
      ReplantLink(enode, node, np);
      assert ptr == SwapParents(m, node, enode, np, ep);
      ExchangeChildren(node, enode);
      forall x | x in ids ensures Conjugated(m, ptr, node, enode, x) {
        SwapFarConjugates(m, node, enode, np, ep, x);
      }
    }

    method ExchangeChildren(node: Link, enode: Link)
      requires Linkable(ptr, node) && Linkable(ptr, enode) && node != enode
      requires Apart(ptr, node, enode, false) && Apart(ptr, node, enode, true)
      modifies `ptr
      ensures ptr == SwapBothChildren(old(ptr), node, enode)
    {
      var temp := ptr.child0[node];
      SwapChildrenAt(ptr, node, enode, false, node);
      SwapChildrenAt(ptr, node, enode, false, enode);
      AdoptLink(node, false, ptr.child0[enode]);
      AdoptLink(enode, false, temp);
      temp := ptr.child1[node];
      AdoptLink(node, true, ptr.child1[enode]);
      AdoptLink(enode, true, temp);
    }

    /** Everything but the assoc members of node, which is about to go, and of its ancestors is
        right; node has at most one child. */
    ghost predicate Detachable(node: Link, ctx: Context, t: Tree)
      reads this
    {
      && Sized() && Linked(ctx, t) && Counted(ctx, t) && AssocsStale(ctx)
      && t.Node? && t.id == node && (t.left.Leaf? || t.right.Leaf?)
      && Summed(op, value, assoc, t.left) && Summed(op, value, assoc, t.right)
      && Balanced(balance, t) && ContextBalanced(balance, ctx, Height(t))
    }

    lemma StandDetachable(node: Link, ctx: Context, t: Tree)
      requires Valid() && Standing(ctx, t, node) && (t.left.Leaf? || t.right.Leaf?)
      ensures Detachable(node, ctx, t)
    {
      ContextSiblings(op, value, assoc, ctx, TreeSum(op, value, t));
      BalancedPlug(balance, ctx, t);
    }

    lemma MakeDetachable(node: Link, ctx: Context, l: Tree)
      requires Sized() && Linked(ctx, Node(node, l, Leaf)) && Counted(ctx, Node(node, l, Leaf))
      requires AssocsStale(ctx) && Summed(op, value, assoc, l)
      requires Balanced(balance, Node(node, l, Leaf)) && ContextBalanced(balance, ctx, Height(Node(node, l, Leaf)))
      ensures Detachable(node, ctx, Node(node, l, Leaf))
    {
    }

    /** CAvl_swap_for_remove: node goes where the last entry of its left subtree was, and that
        entry to its place. */
    method SwapForRemove(node: Link, enode: Link, nodeParent: Link, enodeParent: Link,
                         ghost ctx: Context, ghost path: Context, ghost ml: Tree, ghost r: Tree)
      requires Valid() && Standing(ctx, Node(node, Plug(path, Node(enode, ml, Leaf)), r), node)
      requires After(path) == [] && nodeParent == ptr.parent[node]
      requires Standing(Append(path, Step(node, false, r, ctx)), Node(enode, ml, Leaf), enode)
      requires enodeParent == ptr.parent[enode]
      modifies `ptr, `root, `balance, `count
      ensures Detachable(node, Append(path, Step(enode, false, r, ctx)), Node(node, ml, Leaf))
    {
      ExchangeAssocs(node, enode, ctx, path, ml, r);
      SwapPlaces(node, enode, nodeParent, enodeParent, ctx, path, ml, r);
      SwapBalances(node, enode, ctx, path, ml, r);
      SwapCounts(node, enode, ctx, path, ml, r);
      MakeDetachable(node, Append(path, Step(enode, false, r, ctx)), ml);
    }

    method SwapBalances(node: Link, enode: Link, ghost ctx: Context, ghost path: Context, ghost ml: Tree, ghost r: Tree)
      requires tree == Plug(ctx, Node(node, Plug(path, Node(enode, ml, Leaf)), r)) && Distinct(Entries())
      requires 0 <= node < |balance| && 0 <= enode < |balance| && Balanced(balance, tree)
      modifies `balance
      ensures |balance| == |old(balance)| && Balanced(balance, Node(node, ml, Leaf))
      ensures ContextBalanced(balance, Append(path, Step(enode, false, r, ctx)), Height(Node(node, ml, Leaf)))
    {
      ghost var b := balance;
      balance := balance[node := balance[enode]][enode := balance[node]];
      ExchangeBalances(b, node, enode, ctx, path, ml, r);
    }

    method SwapCounts(node: Link, enode: Link, ghost ctx: Context, ghost path: Context, ghost ml: Tree, ghost r: Tree)
      requires tree == Plug(ctx, Node(node, Plug(path, Node(enode, ml, Leaf)), r)) && Distinct(Entries())
      requires 0 <= node < |count| && 0 <= enode < |count| && Summed(PLUS, ONE, count, tree)
      modifies `count
      ensures |count| == |old(count)| && Counted(Append(path, Step(enode, false, r, ctx)), Node(node, ml, Leaf))
    {
      ghost var n := count;
      count := count[node := count[enode]][enode := count[node]];
      ExchangeCounts(n, node, enode, ctx, path, ml, r);
    }

    /** Its link assignments. */
    method SwapPlaces(node: Link, enode: Link, nodeParent: Link, enodeParent: Link,
                      ghost ctx: Context, ghost path: Context, ghost ml: Tree, ghost r: Tree)
      requires Valid() && Standing(ctx, Node(node, Plug(path, Node(enode, ml, Leaf)), r), node)
      requires After(path) == [] && nodeParent == ptr.parent[node]
      requires Standing(Append(path, Step(node, false, r, ctx)), Node(enode, ml, Leaf), enode)
      requires enodeParent == ptr.parent[enode]
      modifies `ptr, `root
      ensures Sized() && Linked(Append(path, Step(enode, false, r, ctx)), Node(node, ml, Leaf))
    {
      SwapReady(node, enode, ctx, path, ml, r);
      ghost var m, root0 := ptr, root;
      if enodeParent == node {
        SwapConnected(node, enode, nodeParent, Entries());
      } else {
        SwapSeparate(node, enode, nodeParent, enodeParent, Entries());
      }
      ExchangeLinks(m, root0, node, enode, ctx, path, ml, r);
    }

    lemma SwapReady(node: Link, enode: Link, ctx: Context, path: Context, ml: Tree, r: Tree)
      requires Valid() && Standing(ctx, Node(node, Plug(path, Node(enode, ml, Leaf)), r), node)
      requires Standing(Append(path, Step(node, false, r, ctx)), Node(enode, ml, Leaf), enode)
      ensures Swappable(node, enode, ptr.parent[node], ptr.parent[enode])
      ensures forall x | x in Entries() :: Knit(ptr, x)
      ensures (ptr.parent[node] == NULL) == (root == node) && root != enode
    {
      var t, c := Node(node, Plug(path, Node(enode, ml, Leaf)), r), Append(path, Step(node, false, r, ctx));
      AllKnit();
      ExchangeParents(node, enode, ctx, path, ml, r);
      StandUp(ctx, t);
      StandUp(c, Node(enode, ml, Leaf));
      InEntries(ctx, t);
      InEntries(c, Node(enode, ml, Leaf));
    }

    lemma AllKnit()
      requires Valid()
      ensures forall x | x in Entries() :: Knit(ptr, x)
      ensures root != NULL ==> ptr.Has(root) && ptr.parent[root] == NULL
    {
      forall x | x in Entries() ensures Knit(ptr, x) {
        LinksKnit(ptr, tree, root, NULL, x);
      }
    }

    lemma InEntries(ctx: Context, t: Tree)
      requires Plug(ctx, t) == tree && t.Node?
      ensures t.id in Entries()
    {
      InorderPlug(ctx, t);
      assert t.id in Inorder(t);
    }

    lemma ExchangeLinks(m: Pointers, root0: Link, node: Link, enode: Link,
                        ctx: Context, path: Context, ml: Tree, r: Tree)
      requires tree == Plug(ctx, Node(node, Plug(path, Node(enode, ml, Leaf)), r)) && Distinct(Entries())
      requires Links(m, tree, root0, NULL) && root == Swap(node, enode, root0) && node >= 0 && enode >= 0
      requires forall x | x in Entries() :: Conjugated(m, ptr, node, enode, x)
      ensures Linked(Append(path, Step(enode, false, r, ctx)), Node(node, ml, Leaf))
    {
      var c := Append(path, Step(enode, false, r, ctx));
      LinksRename(m, ptr, node, enode, tree, root0, NULL);
      ExchangeShape(node, enode, ctx, path, ml, r);
      LinksPlug(ptr, c, Node(node, ml, Leaf), root);
      RenameDistinct(node, enode, tree);
    }

    lemma ExchangeBalances(b: seq<int>, node: Link, enode: Link, ctx: Context, path: Context, ml: Tree, r: Tree)
      requires tree == Plug(ctx, Node(node, Plug(path, Node(enode, ml, Leaf)), r)) && Distinct(Entries())
      requires 0 <= node < |b| && 0 <= enode < |b| && Balanced(b, tree) && Exchanged(b, balance, node, enode)
      ensures var c, t := Append(path, Step(enode, false, r, ctx)), Node(node, ml, Leaf);
        Balanced(balance, t) && ContextBalanced(balance, c, Height(t))
    {
      ExchangeShape(node, enode, ctx, path, ml, r);
      BalancedRename(b, balance, node, enode, tree);
      BalancedPlug(balance, Append(path, Step(enode, false, r, ctx)), Node(node, ml, Leaf));
    }

    lemma ExchangeCounts(n: seq<nat>, node: Link, enode: Link, ctx: Context, path: Context, ml: Tree, r: Tree)
      requires tree == Plug(ctx, Node(node, Plug(path, Node(enode, ml, Leaf)), r)) && Distinct(Entries())
      requires 0 <= node < |n| && 0 <= enode < |n| && Summed(PLUS, ONE, n, tree) && Exchanged(n, count, node, enode)
      ensures Counted(Append(path, Step(enode, false, r, ctx)), Node(node, ml, Leaf))
    {
      ExchangeShape(node, enode, ctx, path, ml, r);
      CountedRename(n, count, node, enode, tree);
      SummedPlug(PLUS, ONE, count, Append(path, Step(enode, false, r, ctx)), Node(node, ml, Leaf));
    }

    lemma ExchangeAssocs(node: Link, enode: Link, ctx: Context, path: Context, ml: Tree, r: Tree)
      requires Associated(Append(path, Step(node, false, r, ctx)), Node(enode, ml, Leaf))
      requires 0 <= enode < |assoc|
      ensures AssocsStale(Append(path, Step(enode, false, r, ctx))) && Summed(op, value, assoc, ml)
    {
      var c := Append(path, Step(node, false, r, ctx));
      ContextSiblings(op, value, assoc, c, TreeSum(op, value, Node(enode, ml, Leaf)));
      AppendSiblings(op, value, assoc, path, Step(node, false, r, ctx));
      AppendSiblings(op, value, assoc, path, Step(enode, false, r, ctx));
    }

    /** The only child of an entry that has at most one. */
    ghost function OnlySubtree(t: Tree): Tree
      requires t.Node?
    {
      if t.left.Node? then t.left else t.right
    }

    /** The link assignments of CAvl_replace_subtree_fix_assoc. */
    method ReplaceLink(dest: Link, n: Link, destParent: Link)
      requires ptr.Has(dest) && (n != NULL ==> ptr.Has(n)) && (destParent != NULL ==> ptr.Has(destParent))
      modifies `ptr, `root
      ensures ptr == ReplacePointers(old(ptr), dest, n, destParent)
      ensures root == if destParent == NULL then n else old(root)
    {
      if destParent != NULL {
        ptr := ptr.SetChild(destParent, dest == ptr.At(destParent, true), n);
      } else {
        root := n;
      }
      if n != NULL {
        ptr := ptr.SetParent(n, ptr.parent[dest]);
      }
    }

    lemma DetachReady(dest: Link, ctx: Context, t: Tree)
      requires Detachable(dest, ctx, t)
      ensures var k := OnlySubtree(t);
        && ptr.Has(dest) && ptr.parent[dest] == ParentLink(ctx) && ContextLinks(ptr, ctx, dest, root)
        && Links(ptr, k, RootLink(k), dest) && Separate(ctx, k)
        && RootLink(k) == if ptr.child0[dest] != NULL then ptr.child0[dest] else ptr.child1[dest]
      ensures ctx.Step? ==> ptr.Has(ctx.id) && (ptr.child1[ctx.id] == dest) == ctx.side
    {
      ChildSeparate(ctx, t, t.left.Leaf?);
      HeavyChild(t, false, ctx);
      HeavyChild(t, true, ctx);
      if ctx.Step? { HoleSide(ptr, ctx, t, root); }
    }

    lemma DetachParts(dest: Link, ctx: Context, t: Tree)
      requires Detachable(dest, ctx, t)
      ensures var k := OnlySubtree(t);
        && Balanced(balance, k) && Height(k) == Height(t) - 1 && ContextBalanced(balance, ctx, Height(t))
        && BothSummed(k) && CountsStale(ctx, TreeSum(PLUS, ONE, t)) && AssocsStale(ctx)
        && Inorder(k) == Inorder(t.left) + Inorder(t.right)
    {
      assert t.left.Leaf? ==> Inorder(t.left) == [];
      assert t.right.Leaf? ==> Inorder(t.right) == [];
    }

    lemma DetachCounts(dest: Link, ctx: Context, t: Tree)
      requires Detachable(dest, ctx, t)
      ensures var k := OnlySubtree(t);
        && 0 <= dest < |count| && count[dest] == Size(t) == SumOr(0, TreeSum(PLUS, ONE, t))
        && (k.Node? ==> 0 <= k.id < |count| && count[k.id] == Size(k)) && (k.Leaf? ==> Size(k) == 0)
    {
      RootCount(count, t);
      CountIsSize(t);
      if t.left.Node? {
        RootCount(count, t.left);
      } else if t.right.Node? {
        RootCount(count, t.right);
      }
    }

    method ReplaceLinked(dest: Link, n: Link, destParent: Link, ghost ctx: Context, ghost t: Tree)
      requires Detachable(dest, ctx, t) && n == RootLink(OnlySubtree(t)) && destParent == ParentLink(ctx)
      modifies `ptr, `root
      ensures Sized() && Linked(ctx, OnlySubtree(t))
    {
      ghost var m, root0, k := ptr, root, OnlySubtree(t);
      DetachReady(dest, ctx, t);
      ReplaceApart(m, dest, ctx, k);
      ReplaceIs(m, dest, n, ctx);
      ReplaceLink(dest, n, destParent);
      ReplaceLinks(m, ptr, dest, ctx, k, root0, root);
    }

    /** CAvl_replace_subtree_fix_assoc */
    method ReplaceSubtreeFixAssoc(dest: Link, n: Link, destParent: Link, ghost ctx: Context, ghost t: Tree)
      requires Detachable(dest, ctx, t) && n == RootLink(OnlySubtree(t)) && destParent == ParentLink(ctx)
      modifies `ptr, `root, `count, `assoc
      ensures Sized() && Focused(ctx, OnlySubtree(t))
    {
      DetachCounts(dest, ctx, t);
      DetachParts(dest, ctx, t);
      ReplaceLinked(dest, n, destParent, ctx, t);
      var change: int := -(count[dest] as int);
      if n != NULL {
        change := change + count[n];
      }
      FixAncestors(destParent, change, ctx, OnlySubtree(t), TreeSum(PLUS, ONE, t));
    }

    /** The second half of CAvl_Remove, once node has at most one child. */
    method Detach(node: Link, ghost ctx: Context, ghost t: Tree)
      requires Associative(op) && Detachable(node, ctx, t)
      modifies this
      ensures Valid() && Entries() == Before(ctx) + (Inorder(t.left) + Inorder(t.right)) + After(ctx)
    {
      DetachReady(node, ctx, t);
      var paren := ptr.parent[node];
      var child := if ptr.child0[node] != NULL then ptr.child0[node] else ptr.child1[node];
      if paren != NULL {
        var side := node == ptr.child1[paren];
        DetachBelow(node, child, paren, side, ctx, t);
      } else {
        DetachRoot(node, child, ctx, t);
      }
    }

    method DetachBelow(node: Link, child: Link, paren: Link, side: bool, ghost ctx: Context, ghost t: Tree)
      requires Associative(op) && Detachable(node, ctx, t) && child == RootLink(OnlySubtree(t))
      requires ctx.Step? && paren == ctx.id && side == ctx.side
      modifies this
      ensures Valid() && Entries() == Before(ctx) + (Inorder(t.left) + Inorder(t.right)) + After(ctx)
    {
      DetachParts(node, ctx, t);
      ReplaceSubtreeFixAssoc(node, child, paren, ctx, t);
      RebalanceLower(paren, side, ctx, OnlySubtree(t));
    }

    method DetachRoot(node: Link, child: Link, ghost ctx: Context, ghost t: Tree)
      requires Associative(op) && Detachable(node, ctx, t) && child == RootLink(OnlySubtree(t)) && ctx.Top?
      modifies this
      ensures Valid() && Entries() == Before(ctx) + (Inorder(t.left) + Inorder(t.right)) + After(ctx)
    {
      ghost var k := OnlySubtree(t);
      DetachParts(node, ctx, t);
      ReplaceSubtreeFixAssoc(node, child, NULL, ctx, t);
      KeepRoot(ctx, k, Inorder(t.left) + Inorder(t.right));
    }

    ghost method KeepRoot(ctx: Context, k: Tree, rest: seq<Link>)
      requires Associative(op) && Sized() && Focused(ctx, k) && Balanced(balance, k) && ctx.Top? && Inorder(k) == rest
      modifies `tree
      ensures Valid() && Entries() == Before(ctx) + rest + After(ctx)
    {
      assert Before(ctx) == [] && After(ctx) == [] && [] + rest + [] == rest;
      SetTree(k);
    }

    method RebalanceLower(paren: Link, side: bool, ghost ctx: Context, ghost k: Tree)
      requires Associative(op) && Sized() && Focused(ctx, k) && Balanced(balance, k)
      requires ctx.Step? && ctx.id == paren && ctx.side == side && ContextBalanced(balance, ctx, Height(k) + 1)
      modifies this
      ensures Valid() && Entries() == Before(ctx) + Inorder(k) + After(ctx)
    {
      InorderPlug(ctx, k);
      ghost var whole := Rebalance(paren, side, -1, ctx, k, Height(k) + 1);
      SetTree(whole);
    }

    /** CAvl_Remove: takes node out of its position and changes no other. */
    method Remove(node: Link, ghost i: nat)
      requires Valid() && i < |Entries()| && node == Entries()[i]
      modifies this
      ensures Valid() && CutOut(old(Entries()), Entries(), i)
      ensures old(Ordered()) ==> Ordered()
    {
      ghost var before := Entries();
      ghost var ctx, t := Stand(i);
      StandDown(ctx, t, false);
      StandDown(ctx, t, true);
      TopCutOut(ctx, t, i);
      if ptr.child0[node] != NULL && ptr.child1[node] != NULL {
        RemoveInner(node, ctx, t);
      } else {
        StandDetachable(node, ctx, t);
        Detach(node, ctx, t);
      }
      if Increasing(key, before) {
        CutOutIncreasing(key, before, Entries(), i);
      }
    }

    /** Where node has two children. */
    method RemoveInner(node: Link, ghost ctx: Context, ghost t: Tree)
      requires Valid() && Standing(ctx, t, node) && t.left.Node? && t.right.Node?
      modifies this
      ensures Valid() && Entries() == Before(ctx) + (Inorder(t.left) + Inorder(t.right)) + After(ctx)
    {
      StandDown(ctx, t, false);
      ghost var path, low;
      var max;
      max, path, low := SubtreeMax(ptr.child0[node], Step(node, false, t.right, ctx), t.left);
      assert low == Node(max, low.left, Leaf);
      assert t == Node(node, Plug(path, Node(max, low.left, Leaf)), t.right);
      RemoveExchanged(node, max, ctx, path, low.left, t.right);
    }

    method RemoveExchanged(node: Link, max: Link, ghost ctx: Context, ghost path: Context, ghost ml: Tree, ghost r: Tree)
      requires Valid() && Standing(ctx, Node(node, Plug(path, Node(max, ml, Leaf)), r), node)
      requires After(path) == []
      requires Standing(Append(path, Step(node, false, r, ctx)), Node(max, ml, Leaf), max)
      modifies this
      ensures Valid()
      ensures Entries() == Before(ctx) + (Inorder(Plug(path, Node(max, ml, Leaf))) + Inorder(r)) + After(ctx)
    {
      SwapForRemove(node, max, ptr.parent[node], ptr.parent[max], ctx, path, ml, r);
      ghost var c := Append(path, Step(max, false, r, ctx));
      ExchangeInorder(node, max, ctx, path, ml, r);
      Detach(node, c, Node(node, ml, Leaf));
      assert Inorder(ml) + Inorder(Leaf) == Inorder(ml);
      Concat(Before(ctx), Inorder(Plug(path, Node(max, ml, Leaf))), Inorder(r));
    }

    /** The height of a tree is logarithmic in its number of entries. */
    lemma HeightBounded()
      requires Valid()
      ensures Fib(Height(tree) + 2) <= |Entries()| + 1
    {
      HeightBound(balance, tree);
    }
  }
}
