/** Subtree sums of structure/CAvl_impl.h: the count and assoc members. A count is the sum with
    value 1 per entry under addition; assoc is the caller's associative operation. */
module AvlSums {
  import opened Wrappers
  import opened AvlTree
  import opened AvlBalance

  ghost predicate AssociatesAt<A>(op: (A, A) -> A, x: A, y: A, z: A) {
    op(op(x, y), z) == op(x, op(y, z))
  }

  ghost predicate Associative<A(!new)>(op: (A, A) -> A) {
    forall x, y, z :: AssociatesAt(op, x, y, z)
  }

  ghost predicate IdentityAt<A>(op: (A, A) -> A, zero: A, x: A) {
    op(zero, x) == x && op(x, zero) == x
  }

  ghost predicate Identity<A(!new)>(op: (A, A) -> A, zero: A) {
    forall x :: IdentityAt(op, zero, x)
  }

  const PLUS: (nat, nat) -> nat := (x, y) => x + y
  const ONE: Link -> nat := _ => 1

  /** CAvl_compute_node_assoc, from the children's sums; None is a missing child. */
  function Combine<A>(op: (A, A) -> A, left: Option<A>, value: A, right: Option<A>): A {
    var sum := if left.Some? then op(left.value, value) else value;
    if right.Some? then op(sum, right.value) else sum
  }

  /** ... with the sums given as that on side and that on the other side. */
  function CombineAt<A>(op: (A, A) -> A, side: bool, t: Option<A>, value: A, s: Option<A>): A {
    if side then Combine(op, s, value, t) else Combine(op, t, value, s)
  }

  function TreeSum<A>(op: (A, A) -> A, value: Link -> A, t: Tree): Option<A> {
    match t
    case Leaf => None
    case Node(id, l, r) => Some(Combine(op, TreeSum(op, value, l), value(id), TreeSum(op, value, r)))
  }

  /** The sum member of every entry of t is the sum over its subtree. */
  ghost predicate Summed<A>(op: (A, A) -> A, value: Link -> A, sum: seq<A>, t: Tree) {
    match t
    case Leaf => true
    case Node(id, l, r) =>
      && 0 <= id < |sum| && Some(sum[id]) == TreeSum(op, value, t)
      && Summed(op, value, sum, l) && Summed(op, value, sum, r)
  }

  /** The entries around a hole whose subtree sums to h. */
  ghost predicate ContextSummed<A>(op: (A, A) -> A, value: Link -> A, sum: seq<A>, ctx: Context, h: Option<A>) {
    match ctx
    case Top => true
    case Step(id, side, s, up) =>
      && 0 <= id < |sum| && sum[id] == CombineAt(op, side, h, value(id), TreeSum(op, value, s))
      && Summed(op, value, sum, s) && ContextSummed(op, value, sum, up, Some(sum[id]))
  }

  /** ... where only the subtrees beside the path are known to be right. */
  ghost predicate SiblingsSummed<A>(op: (A, A) -> A, value: Link -> A, sum: seq<A>, ctx: Context) {
    match ctx
    case Top => true
    case Step(id, side, s, up) =>
      0 <= id < |sum| && Summed(op, value, sum, s) && SiblingsSummed(op, value, sum, up)
  }

  lemma SumMake<A>(op: (A, A) -> A, value: Link -> A, sum: seq<A>, id: Link, side: bool, t: Tree, s: Tree)
    ensures TreeSum(op, value, Make(id, side, t, s))
         == Some(CombineAt(op, side, TreeSum(op, value, t), value(id), TreeSum(op, value, s)))
    ensures Summed(op, value, sum, Make(id, side, t, s))
       <==> 0 <= id < |sum| && Some(sum[id]) == TreeSum(op, value, Make(id, side, t, s))
            && Summed(op, value, sum, t) && Summed(op, value, sum, s)
  {
  }

  lemma {:induction false} SummedFrame<A>(op: (A, A) -> A, value: Link -> A, sum: seq<A>, sum': seq<A>, t: Tree)
    requires Summed(op, value, sum, t) && forall x | x in Inorder(t) :: AgreeAt(sum, sum', x)
    ensures Summed(op, value, sum', t)
  {
    if t.Node? {
      assert t.id in Inorder(t);
      SummedFrame(op, value, sum, sum', t.left);
      SummedFrame(op, value, sum, sum', t.right);
    }
  }

  lemma {:induction false} ContextSummedFrame<A>(op: (A, A) -> A, value: Link -> A, sum: seq<A>, sum': seq<A>,
                                                 ctx: Context, h: Option<A>)
    requires ContextSummed(op, value, sum, ctx, h) && forall x | InContext(ctx, x) :: AgreeAt(sum, sum', x)
    ensures ContextSummed(op, value, sum', ctx, h)
  {
    match ctx
    case Top =>
    case Step(id, side, s, up) =>
      assert InContext(ctx, id);
      assert forall x | x in Inorder(s) || InContext(up, x) :: InContext(ctx, x);
      SummedFrame(op, value, sum, sum', s);
      ContextSummedFrame(op, value, sum, sum', up, Some(sum[id]));
  }

  lemma {:induction false} SiblingsSummedFrame<A>(op: (A, A) -> A, value: Link -> A, sum: seq<A>, sum': seq<A>,
                                                  ctx: Context)
    requires SiblingsSummed(op, value, sum, ctx) && forall x | InContext(ctx, x) :: AgreeAt(sum, sum', x)
    ensures SiblingsSummed(op, value, sum', ctx)
  {
    match ctx
    case Top =>
    case Step(id, side, s, up) =>
      assert InContext(ctx, id);
      assert forall x | x in Inorder(s) || InContext(up, x) :: InContext(ctx, x);
      SummedFrame(op, value, sum, sum', s);
      SiblingsSummedFrame(op, value, sum, sum', up);
  }

  lemma {:induction false} ContextSiblings<A>(op: (A, A) -> A, value: Link -> A, sum: seq<A>, ctx: Context, h: Option<A>)
    requires ContextSummed(op, value, sum, ctx, h)
    ensures SiblingsSummed(op, value, sum, ctx)
  {
    if ctx.Step? { ContextSiblings(op, value, sum, ctx.up, Some(sum[ctx.id])); }
  }

  lemma {:induction false} SummedPlug<A>(op: (A, A) -> A, value: Link -> A, sum: seq<A>, ctx: Context, t: Tree)
    ensures Summed(op, value, sum, Plug(ctx, t))
       <==> Summed(op, value, sum, t) && ContextSummed(op, value, sum, ctx, TreeSum(op, value, t))
  {
    match ctx
    case Top =>
    case Step(id, side, s, up) =>
      SummedPlug(op, value, sum, up, Make(id, side, t, s));
      SumMake(op, value, sum, id, side, t, s);
  }

  /** What lets a rotation leave all entries above it alone. */
  lemma RotateSum<A(!new)>(op: (A, A) -> A, value: Link -> A, r: Link, nr: Link, dir: bool,
                           near: Tree, inner: Tree, outer: Tree)
    requires Associative(op)
    ensures TreeSum(op, value, Make(nr, dir, Make(r, !dir, inner, near), outer))
         == TreeSum(op, value, Make(r, !dir, Make(nr, dir, inner, outer), near))
  {
    var a, b, c := TreeSum(op, value, near), TreeSum(op, value, inner), TreeSum(op, value, outer);
    if dir {
      CombineRotate(op, c, value(nr), b, value(r), a);
    } else {
      CombineRotate(op, a, value(r), b, value(nr), c);
    }
  }

  lemma CombineRotate<A(!new)>(op: (A, A) -> A, a: Option<A>, x: A, b: Option<A>, y: A, c: Option<A>)
    requires Associative(op)
    ensures Combine(op, a, x, Some(Combine(op, b, y, c))) == Combine(op, Some(Combine(op, a, x, b)), y, c)
  {
    var ax := if a.Some? then op(a.value, x) else x;
    if b.Some? {
      assert AssociatesAt(op, ax, b.value, y);
      if c.Some? {
        assert AssociatesAt(op, ax, op(b.value, y), c.value);
      }
    } else if c.Some? {
      assert AssociatesAt(op, ax, y, c.value);
    }
  }

  // ----- sums as folds of the in-order sequence -----

  function Fold<A>(op: (A, A) -> A, zero: A, value: Link -> A, s: seq<Link>): A {
    if s == [] then zero else op(value(s[0]), Fold(op, zero, value, s[1..]))
  }

  lemma {:induction false} FoldConcat<A(!new)>(op: (A, A) -> A, zero: A, value: Link -> A, s: seq<Link>, t: seq<Link>)
    requires Associative(op) && Identity(op, zero)
    ensures Fold(op, zero, value, s + t) == op(Fold(op, zero, value, s), Fold(op, zero, value, t))
  {
    if s == [] {
      assert s + t == t;
      assert IdentityAt(op, zero, Fold(op, zero, value, t));
    } else {
      FoldConcat(op, zero, value, s[1..], t);
      assert (s + t)[1..] == s[1..] + t;
      var x, y, z := value(s[0]), Fold(op, zero, value, s[1..]), Fold(op, zero, value, t);
      assert AssociatesAt(op, x, y, z);
    }
  }

  lemma FoldOne<A(!new)>(op: (A, A) -> A, zero: A, value: Link -> A, x: Link)
    requires Identity(op, zero)
    ensures Fold(op, zero, value, [x]) == value(x)
  {
    assert [x][1..] == [];
    assert IdentityAt(op, zero, value(x));
  }

  function SumOr<A>(zero: A, sum: Option<A>): A { if sum.Some? then sum.value else zero }

  /** The sum of a subtree is the fold of its entries in order. */
  lemma {:induction false} TreeSumIsFold<A(!new)>(op: (A, A) -> A, zero: A, value: Link -> A, t: Tree)
    requires Associative(op) && Identity(op, zero)
    ensures SumOr(zero, TreeSum(op, value, t)) == Fold(op, zero, value, Inorder(t))
    ensures TreeSum(op, value, t).None? <==> t.Leaf?
  {
    if t.Node? {
      TreeSumIsFold(op, zero, value, t.left);
      TreeSumIsFold(op, zero, value, t.right);
      var l, r := Inorder(t.left), Inorder(t.right);
      FoldConcat(op, zero, value, l + [t.id], r);
      FoldConcat(op, zero, value, l, [t.id]);
      FoldOne(op, zero, value, t.id);
      assert IdentityAt(op, zero, value(t.id));
      assert IdentityAt(op, zero, Fold(op, zero, value, l + [t.id]));
    }
  }

  // ----- counts -----

  lemma PlusLaws()
    ensures Associative(PLUS) && Identity(PLUS, 0)
  {
    forall x, y, z ensures AssociatesAt(PLUS, x, y, z) {
    }
  }

  lemma {:induction false} FoldOnes(s: seq<Link>)
    ensures Fold(PLUS, 0, ONE, s) == |s|
  {
    if s != [] { FoldOnes(s[1..]); }
  }

  /** The count of a subtree is its number of entries. */
  lemma CountIsSize(t: Tree)
    ensures SumOr(0, TreeSum(PLUS, ONE, t)) == Size(t)
    ensures TreeSum(PLUS, ONE, t).None? <==> t.Leaf?
  {
    PlusLaws();
    TreeSumIsFold(PLUS, 0, ONE, t);
    FoldOnes(Inorder(t));
  }

  lemma RootCount(count: seq<nat>, t: Tree)
    requires Summed(PLUS, ONE, count, t) && t.Node?
    ensures 0 <= t.id < |count| && count[t.id] == Size(t)
  {
    CountIsSize(t);
  }

  lemma CombineCounts(left: Option<nat>, right: Option<nat>)
    ensures Combine(PLUS, left, 1, right) == SumOr(0, left) + 1 + SumOr(0, right)
  {
  }
}
