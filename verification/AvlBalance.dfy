/** Heights and balance factors of structure/CAvl_impl.h: what the balance members say about a
    shape, and what the rebalancing cases do to it. */
module AvlBalance {
  import opened Wrappers
  import opened AvlTree

  function Height(t: Tree): nat {
    match t
    case Leaf => 0
    case Node(_, l, r) => 1 + Max(Height(l), Height(r))
  }

  /** Right height minus left height, for a child of height h on side and one of height s on the other. */
  function Lean(side: bool, h: int, s: int): int {
    if side then h - s else s - h
  }

  /** The balance members of t are its height differences, all within one. */
  predicate Balanced(b: seq<int>, t: Tree) {
    match t
    case Leaf => true
    case Node(id, l, r) =>
      && 0 <= id < |b| && b[id] == Height(r) - Height(l) && -1 <= b[id] <= 1
      && Balanced(b, l) && Balanced(b, r)
  }

  /** The balance members around a hole of height h. */
  predicate ContextBalanced(b: seq<int>, ctx: Context, h: int) {
    match ctx
    case Top => true
    case Step(id, side, s, up) =>
      && 0 <= id < |b| && b[id] == Lean(side, h, Height(s)) && -1 <= b[id] <= 1
      && Balanced(b, s) && ContextBalanced(b, up, 1 + Max(h, Height(s)))
  }

  lemma BalancedMake(b: seq<int>, id: Link, side: bool, t: Tree, s: Tree)
    ensures Height(Make(id, side, t, s)) == 1 + Max(Height(t), Height(s))
    ensures Balanced(b, Make(id, side, t, s))
       <==> 0 <= id < |b| && b[id] == Lean(side, Height(t), Height(s)) && -1 <= b[id] <= 1
            && Balanced(b, t) && Balanced(b, s)
  {
  }

  ghost predicate AgreeAt<A>(b: seq<A>, b': seq<A>, x: Link) {
    0 <= x < |b| ==> x < |b'| && b'[x] == b[x]
  }

  lemma {:induction false} BalancedFrame(b: seq<int>, b': seq<int>, t: Tree)
    requires Balanced(b, t) && forall x | x in Inorder(t) :: AgreeAt(b, b', x)
    ensures Balanced(b', t)
  {
    if t.Node? {
      assert t.id in Inorder(t);
      BalancedFrame(b, b', t.left);
      BalancedFrame(b, b', t.right);
    }
  }

  lemma {:induction false} ContextBalancedFrame(b: seq<int>, b': seq<int>, ctx: Context, h: int)
    requires ContextBalanced(b, ctx, h) && forall x | InContext(ctx, x) :: AgreeAt(b, b', x)
    ensures ContextBalanced(b', ctx, h)
  {
    match ctx
    case Top =>
    case Step(id, side, s, up) =>
      assert InContext(ctx, id);
      assert forall x | x in Inorder(s) || InContext(up, x) :: InContext(ctx, x);
      BalancedFrame(b, b', s);
      ContextBalancedFrame(b, b', up, 1 + Max(h, Height(s)));
  }

  lemma ContextBalancedElsewhere(b: seq<int>, b': seq<int>, ctx: Context, h: int, id: Link)
    requires ContextBalanced(b, ctx, h) && !InContext(ctx, id) && SameExcept(b, b', id, id, id)
    ensures ContextBalanced(b', ctx, h)
  {
    ContextBalancedFrame(b, b', ctx, h);
  }

  lemma {:induction false} BalancedPlug(b: seq<int>, ctx: Context, t: Tree)
    ensures Balanced(b, Plug(ctx, t)) <==> Balanced(b, t) && ContextBalanced(b, ctx, Height(t))
  {
    match ctx
    case Top =>
    case Step(id, side, s, up) =>
      BalancedPlug(b, up, Make(id, side, t, s));
      BalancedMake(b, id, side, t, s);
  }

  // ----- the height bound -----

  function Fib(n: nat): nat {
    if n < 2 then n else Fib(n - 1) + Fib(n - 2)
  }

  function Size(t: Tree): nat {
    |Inorder(t)|
  }

  lemma FibMonotone(n: nat)
    ensures Fib(n) <= Fib(n + 1)
  {
  }

  lemma {:induction false} FibSum(h: nat, k: nat)
    requires -1 <= h - k <= 1
    ensures Fib(1 + Max(h, k) + 2) <= Fib(h + 2) + Fib(k + 2)
  {
    var n := Max(h, k);
    assert Fib(n + 3) == Fib(n + 2) + Fib(n + 1);
    if h == k { FibMonotone(n + 1); }
  }

  /** A balanced tree of height h holds at least Fib(h + 2) - 1 entries. */
  lemma {:induction false} HeightBound(b: seq<int>, t: Tree)
    requires Balanced(b, t)
    ensures Fib(Height(t) + 2) <= Size(t) + 1
  {
    if t.Node? {
      var l, r := t.left, t.right;
      HeightBound(b, l);
      HeightBound(b, r);
      assert Size(t) == Size(l) + 1 + Size(r);
      FibSum(Height(l), Height(r));
    }
  }

  // ----- the rebalancing cases -----

  /** CAvl_OPTNEG */
  function OptNeg(a: int, neg: bool): int { if neg then -a else a }

  /** The height change the code computes for a node whose child on side grew by deltac. */
  function NodeDelta(balance: int, side: bool, deltac: int): int {
    Max(deltac, OptNeg(balance, side)) - Max(0, OptNeg(balance, side))
  }

  /** It is the change of the node's height, and stays within one. */
  lemma NodeDeltaMeaning(side: bool, h: int, s: int, deltac: int)
    requires -1 <= deltac <= 1 && -1 <= Lean(side, h, s) <= 1
    ensures var delta := NodeDelta(Lean(side, h, s), side, deltac);
      -1 <= delta <= 1 && 1 + Max(h + deltac, s) == 1 + Max(h, s) + delta
    ensures Lean(side, h, s) - OptNeg(deltac, side) == Lean(side, h + deltac, s)
  {
  }

  /** A node that leans by 2 afterwards did not get lower, so a transformation that takes one
      off its height keeps the change within one. */
  lemma NodeDeltaLeaning(side: bool, h: int, s: int, deltac: int)
    requires -1 <= deltac <= 1 && -1 <= Lean(side, h, s) <= 1
    ensures -2 <= Lean(side, h + deltac, s) <= 2
    ensures Lean(side, h + deltac, s) == 2 || Lean(side, h + deltac, s) == -2 ==>
      0 <= NodeDelta(Lean(side, h, s), side, deltac)
  {
  }

  /** Both for the node as a tree. */
  lemma BumpShape(id: Link, side: bool, t: Tree, s: Tree, h: int, deltac: int)
    requires -1 <= deltac <= 1 && Height(t) == h + deltac && -1 <= Lean(side, h, Height(s)) <= 1
    ensures var n, delta := Make(id, side, t, s), NodeDelta(Lean(side, h, Height(s)), side, deltac);
      var balance := Lean(side, h, Height(s)) - OptNeg(deltac, side);
      && balance == Height(n.right) - Height(n.left) && -2 <= balance <= 2
      && Height(n) == 1 + Max(h, Height(s)) + delta && -1 <= delta <= 1
      && (balance == 2 || balance == -2 ==> 0 <= delta)
  {
    NodeDeltaMeaning(side, h, Height(s), deltac);
    NodeDeltaLeaning(side, h, Height(s), deltac);
    BalancedMake([], id, side, t, s);
  }

  /** x * bsidef */
  function Facing(side: bool, x: int): int { if side then x else -x }

  lemma MakeFlip(id: Link, side: bool, t: Tree, s: Tree)
    ensures Make(id, !side, t, s) == Make(id, side, s, t)
  {
  }

  predicate Without(t: Tree, x: Link, y: Link, z: Link) {
    x !in Inorder(t) && y !in Inorder(t) && z !in Inorder(t)
  }

  predicate SameExcept(b: seq<int>, b': seq<int>, x: Link, y: Link, z: Link) {
    |b'| == |b| && forall w | 0 <= w < |b| && w != x && w != y && w != z :: b'[w] == b[w]
  }

  lemma BalancedElsewhere(b: seq<int>, b': seq<int>, t: Tree, x: Link, y: Link, z: Link)
    requires Balanced(b, t) && Without(t, x, y, z) && SameExcept(b, b', x, y, z)
    ensures Balanced(b', t)
  {
    BalancedFrame(b, b', t);
  }

  /** Cases 1 and 0: the far child's outer subtree is the higher one, or neither is. The node is
      too heavy on side by 2; afterwards the child is on top and everything is balanced. */
  lemma SingleRotation(b: seq<int>, b': seq<int>, side: bool, node: Link, child: Link,
                       outer: Tree, inner: Tree, light: Tree)
    requires node != child && 0 <= node < |b| && 0 <= child < |b|
    requires Without(outer, node, child, child) && Without(inner, node, child, child)
    requires Without(light, node, child, child)
    requires Balanced(b, Make(child, side, outer, inner)) && Balanced(b, light)
    requires Height(Make(child, side, outer, inner)) == Height(light) + 2
    requires 0 <= Facing(side, b[child]) && SameExcept(b, b', node, child, child)
    requires b'[node] == if Facing(side, b[child]) == 1 then 0 else Facing(side, 1)
    requires b'[child] == if Facing(side, b[child]) == 1 then 0 else Facing(side, -1)
    ensures var n' := Make(child, !side, Make(node, side, inner, light), outer);
      && Balanced(b', n')
      && Height(n') == 1 + Height(Make(child, side, outer, inner)) - (if Facing(side, b[child]) == 1 then 1 else 0)
  {
    BalancedMake(b, child, side, outer, inner);
    BalancedElsewhere(b, b', outer, node, child, child);
    BalancedElsewhere(b, b', inner, node, child, child);
    BalancedElsewhere(b, b', light, node, child, child);
    BalancedMake(b', node, side, inner, light);
    BalancedMake(b', child, !side, Make(node, side, inner, light), outer);
  }

  lemma SingleApart(side: bool, node: Link, child: Link, outer: Tree, inner: Tree, light: Tree)
    requires Distinct(Inorder(Make(node, side, Make(child, side, outer, inner), light)))
    ensures node != child
    ensures Without(outer, node, child, child) && Without(inner, node, child, child) && Without(light, node, child, child)
  {
    var heavy := Make(child, side, outer, inner);
    DistinctNode(Make(node, side, heavy, light));
    DistinctNode(heavy);
    assert child in Inorder(heavy);
    assert forall x | x in Inorder(inner) || x in Inorder(outer) :: x in Inorder(heavy);
  }

  /** The three balances of case -1, from the heights hf and hn of the grandchild's subtrees,
      ho of the child's outer one and hl of the light one. */
  lemma DoubleLeans(side: bool, hf: nat, hn: nat, ho: nat, hl: nat, grand: int)
    requires grand == Lean(side, hf, hn) && -1 <= grand <= 1
    requires 1 + Max(hf, hn) == ho + 1 && ho == hl
    ensures Facing(side, -Max(0, Facing(side, grand))) == Lean(side, hn, hl)
    ensures Facing(side, Max(0, Facing(side, -grand))) == Lean(!side, hf, ho)
    ensures -1 <= Lean(side, hn, hl) <= 1 && -1 <= Lean(!side, hf, ho) <= 1
    ensures 1 + Max(hn, hl) == 1 + Max(hf, ho) == hl + 1
  {
  }

  lemma DoubleHeights(side: bool, child: int, hi: nat, ho: nat, hl: nat)
    requires child == Lean(side, ho, hi) && Facing(side, child) == -1 && 1 + Max(ho, hi) == hl + 2
    ensures hi == ho + 1 && ho == hl
  {
  }

  /** Case -1: the inner subtree of the far child is the higher one; its root grand goes on top. */
  lemma DoubleRotation(b: seq<int>, b': seq<int>, side: bool, node: Link, child: Link, grand: Link,
                       outer: Tree, far: Tree, near: Tree, light: Tree)
    requires node != child && node != grand && child != grand
    requires Without(outer, node, child, grand) && Without(far, node, child, grand)
    requires Without(near, node, child, grand) && Without(light, node, child, grand)
    requires 0 <= node < |b| && 0 <= child < |b| && 0 <= grand < |b|
    requires Balanced(b, Make(child, side, outer, Make(grand, side, far, near))) && Balanced(b, light)
    requires Height(Make(child, side, outer, Make(grand, side, far, near))) == Height(light) + 2
    requires Facing(side, b[child]) == -1
    requires SameExcept(b, b', node, child, grand)
    requires b'[node] == Facing(side, -Max(0, Facing(side, b[grand])))
    requires b'[child] == Facing(side, Max(0, Facing(side, -b[grand]))) && b'[grand] == 0
    ensures var n' := Make(grand, !side, Make(node, side, near, light), Make(child, !side, far, outer));
      Balanced(b', n') && Height(n') == Height(light) + 2
  {
    DoubleBefore(b, side, child, grand, outer, far, near, light);
    DoubleNumbers(side, b[child], b[grand], Height(far), Height(near), Height(outer), Height(light));
    DoubleParts(b, b', side, node, child, grand, outer, far, near, light);
    BalancedMake(b', grand, !side, Make(node, side, near, light), Make(child, !side, far, outer));
  }

  /** What the balances of the child and the grandchild say beforehand. */
  lemma DoubleBefore(b: seq<int>, side: bool, child: Link, grand: Link, outer: Tree, far: Tree, near: Tree, light: Tree)
    requires 0 <= child < |b| && 0 <= grand < |b|
    requires Balanced(b, Make(child, side, outer, Make(grand, side, far, near)))
    requires Height(Make(child, side, outer, Make(grand, side, far, near))) == Height(light) + 2
    ensures Balanced(b, outer) && Balanced(b, far) && Balanced(b, near)
    ensures b[child] == Lean(side, Height(outer), 1 + Max(Height(far), Height(near)))
    ensures 1 + Max(Height(outer), 1 + Max(Height(far), Height(near))) == Height(light) + 2
    ensures b[grand] == Lean(side, Height(far), Height(near)) && -1 <= b[grand] <= 1
  {
    BalancedMake(b, child, side, outer, Make(grand, side, far, near));
    BalancedMake(b, grand, side, far, near);
  }

  lemma DoubleNumbers(side: bool, child: int, grand: int, hf: nat, hn: nat, ho: nat, hl: nat)
    requires child == Lean(side, ho, 1 + Max(hf, hn)) && Facing(side, child) == -1
    requires 1 + Max(ho, 1 + Max(hf, hn)) == hl + 2
    requires grand == Lean(side, hf, hn) && -1 <= grand <= 1
    ensures Facing(side, -Max(0, Facing(side, grand))) == Lean(side, hn, hl)
    ensures Facing(side, Max(0, Facing(side, -grand))) == Lean(!side, hf, ho)
    ensures -1 <= Lean(side, hn, hl) <= 1 && -1 <= Lean(!side, hf, ho) <= 1
    ensures 1 + Max(hn, hl) == 1 + Max(hf, ho) == hl + 1
  {
    DoubleHeights(side, child, 1 + Max(hf, hn), ho, hl);
    DoubleLeans(side, hf, hn, ho, hl, grand);
  }

  lemma DoubleParts(b: seq<int>, b': seq<int>, side: bool, node: Link, child: Link, grand: Link,
                    outer: Tree, far: Tree, near: Tree, light: Tree)
    requires 0 <= node < |b| && 0 <= child < |b| && SameExcept(b, b', node, child, grand)
    requires Without(outer, node, child, grand) && Without(far, node, child, grand)
    requires Without(near, node, child, grand) && Without(light, node, child, grand)
    requires Balanced(b, outer) && Balanced(b, far) && Balanced(b, near) && Balanced(b, light)
    requires -1 <= b'[node] <= 1 && b'[node] == Lean(side, Height(near), Height(light))
    requires -1 <= b'[child] <= 1 && b'[child] == Lean(!side, Height(far), Height(outer))
    ensures Balanced(b', Make(node, side, near, light)) && Balanced(b', Make(child, !side, far, outer))
    ensures Height(Make(node, side, near, light)) == 1 + Max(Height(near), Height(light))
    ensures Height(Make(child, !side, far, outer)) == 1 + Max(Height(far), Height(outer))
  {
    BalancedElsewhere(b, b', outer, node, child, grand);
    BalancedElsewhere(b, b', far, node, child, grand);
    BalancedElsewhere(b, b', near, node, child, grand);
    BalancedElsewhere(b, b', light, node, child, grand);
    BalancedMake(b', node, side, near, light);
    BalancedMake(b', child, !side, far, outer);
  }

  lemma DoubleApart(side: bool, node: Link, child: Link, grand: Link,
                    outer: Tree, far: Tree, near: Tree, light: Tree)
    requires Distinct(Inorder(Make(node, side, Make(child, side, outer, Make(grand, side, far, near)), light)))
    ensures grand != node && grand != child && node != child
    ensures Without(outer, node, child, grand) && Without(far, node, child, grand)
    ensures Without(near, node, child, grand) && Without(light, node, child, grand)
  {
    var inner := Make(grand, side, far, near);
    SingleApart(side, node, child, outer, inner, light);
    var heavy := Make(child, side, outer, inner);
    DistinctNode(Make(node, side, heavy, light));
    DistinctNode(heavy);
    DistinctNode(inner);
    assert grand in Inorder(inner) && grand in Inorder(heavy);
    assert forall x | x in Inorder(far) || x in Inorder(near) :: x in Inorder(inner);
  }
}
