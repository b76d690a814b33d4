/** The values behind the red-black tree of _Include/tree.h: inductive trees over
    heap nodes, zippers that name one position of a tree, search order, in-order
    sequence and balance. Nothing here reads the heap; a node's key never changes. */
module RedBlackShape {
  import opened KeySets
  import opened Powers

  // RB_BLACK and RB_RED
  datatype Color = Black | Red

  /** An element with its RB_ENTRY: the links and the colour. */
  class Node {
    const key: int
    var left: Node?
    var right: Node?
    var parent: Node?
    var color: Color

    constructor (key: int)
      ensures this.key == key
    {
      this.key := key;
      left, right, parent, color := null, null, null, Black;
    }
  }

  datatype Tree = Nil | Fork(left: Tree, color: Color, node: Node, right: Tree)

  datatype Side = L | R

  /** A tree with a hole, from the hole up: the hole is the child on `side` of `node`.
      All keys of the whole tree lie strictly between the bounds kept at the top. */
  datatype Ctx = Top(lo: int, hi: int) | In(side: Side, up: Ctx, color: Color, node: Node, sibling: Tree)

  /** The fork whose child on side `d` is `near`. */
  ghost function Mk(d: Side, near: Tree, c: Color, n: Node, far: Tree): Tree {
    if d.L? then Fork(near, c, n, far) else Fork(far, c, n, near)
  }

  ghost function Plug(k: Ctx, t: Tree): Tree {
    match k
    case Top(_, _) => t
    case In(d, up, c, n, s) => Plug(up, Mk(d, t, c, n, s))
  }

  /** The context `path`, itself standing in the hole of `k`. */
  ghost function Join(path: Ctx, k: Ctx): Ctx {
    match path
    case Top(_, _) => k
    case In(d, up, c, n, s) => In(d, Join(up, k), c, n, s)
  }

  ghost function Base(k: Ctx): Ctx {
    match k
    case Top(_, _) => k
    case In(_, up, _, _, _) => Base(up)
  }

  ghost function Ptr(t: Tree): Node? {
    if t.Nil? then null else t.node
  }

  ghost function Par(k: Ctx): Node? {
    if k.Top? then null else k.node
  }

  ghost function Depth(k: Ctx): nat {
    if k.Top? then 0 else 1 + Depth(k.up)
  }

  // ---------- search order ----------

  /** A search tree with keys strictly between `lo` and `hi`. */
  ghost predicate Ordered(t: Tree, lo: int, hi: int)
  {
    match t
    case Nil => true
    case Fork(l, _, n, r) => lo < n.key < hi && Ordered(l, lo, n.key) && Ordered(r, n.key, hi)
  }

  /** The keys that may stand in the hole lie above Lo(k) and below Hi(k). */
  ghost function Lo(k: Ctx): int {
    match k
    case Top(lo, _) => lo
    case In(d, up, _, n, _) => if d.L? then Lo(up) else n.key
  }

  ghost function Hi(k: Ctx): int {
    match k
    case Top(_, hi) => hi
    case In(d, up, _, n, _) => if d.L? then n.key else Hi(up)
  }

  ghost predicate CtxOrdered(k: Ctx)
  {
    match k
    case Top(_, _) => true
    case In(d, up, _, n, s) =>
      Lo(up) < n.key < Hi(up) && CtxOrdered(up) &&
      if d.L? then Ordered(s, n.key, Hi(up)) else Ordered(s, Lo(up), n.key)
  }

  ghost predicate Fits(k: Ctx, t: Tree) {
    CtxOrdered(k) && Ordered(t, Lo(k), Hi(k))
  }

  lemma HoleOutside(k: Ctx)
    requires k.In? && CtxOrdered(k)
    ensures !(Lo(k) < k.node.key < Hi(k)) && (k.sibling.Fork? ==> !(Lo(k) < k.sibling.node.key < Hi(k)))
  {
  }

  lemma OrderedWider(t: Tree, lo: int, hi: int, lo': int, hi': int)
    requires Ordered(t, lo, hi) && lo' <= lo && hi <= hi'
    ensures Ordered(t, lo', hi')
  {
  }

  /** The parts of a tree about to be rotated, in search order. */
  lemma RotateParts(d: Side, k: Ctx, a: Tree, cx: Color, x: Node, b: Tree, cy: Color, y: Node, c: Tree)
    requires Fits(k, Mk(d, a, cx, x, Mk(d, b, cy, y, c)))
    ensures Lo(k) < x.key < Hi(k) && Lo(k) < y.key < Hi(k)
    ensures b.Fork? ==> Lo(k) < b.node.key < Hi(k) && b.node.key != x.key && b.node.key != y.key
    ensures if d.L? then x.key < y.key && Ordered(a, Lo(k), x.key) && Ordered(b, x.key, y.key) && Ordered(c, y.key, Hi(k))
            else y.key < x.key && Ordered(c, Lo(k), y.key) && Ordered(b, y.key, x.key) && Ordered(a, x.key, Hi(k))
    ensures Fits(k, Mk(d, Mk(d, a, cx, x, b), cy, y, c))
  {
    var u, v := Mk(d, b, cy, y, c), Mk(d, a, cx, x, b);
    if d.L? {
      assert Ordered(u, x.key, Hi(k)) && Ordered(b, x.key, y.key);
      assert Ordered(v, Lo(k), y.key);
    } else {
      assert Ordered(u, Lo(k), x.key) && Ordered(b, y.key, x.key);
      assert Ordered(v, y.key, Hi(k));
    }
  }

  // ---------- in-order sequence ----------

  ghost function Inorder(t: Tree): seq<Node> {
    match t
    case Nil => []
    case Fork(l, _, n, r) => Inorder(l) + [n] + Inorder(r)
  }

  /** What comes before the hole, in order. */
  ghost function Before(k: Ctx): seq<Node> {
    match k
    case Top(_, _) => []
    case In(d, up, _, n, s) => if d.L? then Before(up) else Before(up) + Inorder(s) + [n]
  }

  /** What comes after the hole, in order. */
  ghost function After(k: Ctx): seq<Node> {
    match k
    case Top(_, _) => []
    case In(d, up, _, n, s) => if d.L? then [n] + Inorder(s) + After(up) else After(up)
  }

  lemma {:induction false} PlugInorder(k: Ctx, t: Tree)
    ensures Inorder(Plug(k, t)) == Before(k) + Inorder(t) + After(k)
  {
    if k.In? {
      PlugInorder(k.up, Mk(k.side, t, k.color, k.node, k.sibling));
    }
  }

  lemma SameInorder(k: Ctx, t: Tree, t': Tree)
    requires Inorder(t) == Inorder(t')
    ensures Inorder(Plug(k, t)) == Inorder(Plug(k, t'))
  {
    PlugInorder(k, t);
    PlugInorder(k, t');
  }

  lemma RotateInorder(a: Tree, cx: Color, x: Node, b: Tree, cy: Color, y: Node, c: Tree)
    ensures Inorder(Fork(a, cx, x, Fork(b, cy, y, c))) == Inorder(Fork(Fork(a, cx, x, b), cy, y, c))
  {
    assert Inorder(Fork(b, cy, y, c)) == Inorder(b) + [y] + Inorder(c);
    assert Inorder(Fork(a, cx, x, b)) == Inorder(a) + [x] + Inorder(b);
  }

  ghost function Key(n: Node): int {
    n.key
  }

  ghost predicate Ascending(s: seq<Node>) {
    Sorted(s, Key)
  }

  lemma {:induction false} InorderAscending(t: Tree, lo: int, hi: int)
    requires Ordered(t, lo, hi)
    ensures Ascending(Inorder(t)) && forall n :: n in Inorder(t) ==> lo < n.key < hi
  {
    if t.Fork? {
      InorderAscending(t.left, lo, t.node.key);
      InorderAscending(t.right, t.node.key, hi);
      var s, l, r := Inorder(t), Inorder(t.left), Inorder(t.right);
      assert forall i :: 0 <= i < |l| ==> l[i] in l;
      assert forall i :: 0 <= i < |r| ==> r[i] in r;
    }
  }

  /** Outside the hole all keys are at or beyond its bounds. */
  lemma {:induction false} AroundHole(k: Ctx)
    requires CtxOrdered(k)
    ensures forall n :: n in Before(k) ==> n.key <= Lo(k)
    ensures forall n :: n in After(k) ==> Hi(k) <= n.key
    ensures Lo(k) <= Hi(k) || k.Top?
  {
    if k.In? {
      AroundHole(k.up);
      if k.side.L? {
        InorderAscending(k.sibling, k.node.key, Hi(k.up));
      } else {
        InorderAscending(k.sibling, Lo(k.up), k.node.key);
      }
    }
  }

  /** The whole path to the hole is on one side. */
  ghost predicate OneSided(k: Ctx, d: Side) {
    k.In? ==> k.side == d && OneSided(k.up, d)
  }

  lemma {:induction false} OneSidedEnds(k: Ctx, d: Side)
    requires OneSided(k, d)
    ensures d.L? ==> Before(k) == []
    ensures d.R? ==> After(k) == []
    ensures k.In? && d.L? ==> After(k) != [] && After(k)[0] == k.node
    ensures k.In? && d.R? ==> Before(k) != [] && Before(k)[|Before(k)| - 1] == k.node
  {
    if k.In? {
      OneSidedEnds(k.up, d);
    }
  }

  /** Every element of a tree is at the root of some focus. */
  lemma {:induction false} Locate(k: Ctx, t: Tree, x: Node) returns (k': Ctx, t': Tree)
    requires x in Inorder(t)
    ensures t'.Fork? && t'.node == x && Plug(k', t') == Plug(k, t) && Base(k') == Base(k)
    decreases t
  {
    if x == t.node {
      k', t' := k, t;
    } else if x in Inorder(t.left) {
      k', t' := Locate(In(L, k, t.color, t.node, t.right), t.left, x);
    } else {
      k', t' := Locate(In(R, k, t.color, t.node, t.left), t.right, x);
    }
  }

  lemma {:induction false} PlugJoin(path: Ctx, k: Ctx, t: Tree)
    ensures Plug(Join(path, k), t) == Plug(k, Plug(path, t))
  {
    if path.In? {
      PlugJoin(path.up, k, Mk(path.side, t, path.color, path.node, path.sibling));
    }
  }

  ghost predicate LeftPath(path: Ctx) {
    path.In? ==> path.side.L? && LeftPath(path.up)
  }

  lemma {:induction false} JoinBase(path: Ctx, k: Ctx)
    ensures Base(Join(path, k)) == Base(k)
  {
    if path.In? {
      JoinBase(path.up, k);
    }
  }

  /** Going left all the way keeps the lower bound, and meets only larger keys. */
  lemma {:induction false} LeftPathLo(path: Ctx, k: Ctx)
    requires LeftPath(path) && CtxOrdered(Join(path, k))
    ensures Lo(Join(path, k)) == Lo(k) && (path.In? ==> Lo(k) < path.node.key)
  {
    if path.In? {
      LeftPathLo(path.up, k);
    }
  }

  lemma LeftPathBefore(path: Ctx)
    requires LeftPath(path)
    ensures Before(path) == []
  {
  }

  /** Taking the least key out of a subtree leaves only keys above it. */
  lemma {:induction false} AboveLeast(path: Ctx, k: Ctx, t: Tree, x: int)
    requires LeftPath(path) && CtxOrdered(Join(path, k))
    requires Lo(k) <= x < Hi(Join(path, k)) && Ordered(t, x, Hi(Join(path, k)))
    ensures Ordered(Plug(path, t), x, Hi(k)) && x < Hi(k)
  {
    if path.In? {
      var u := Join(path.up, k);
      OrderedWider(path.sibling, path.node.key, Hi(u), path.node.key, Hi(u));
      AboveLeast(path.up, k, Mk(L, t, path.color, path.node, path.sibling), x);
    }
  }

  // ---------- balance ----------

  ghost predicate IsRed(t: Tree) {
    t.Fork? && t.color.Red?
  }

  ghost function Unit(c: Color): nat {
    if c.Black? then 1 else 0
  }

  /** Black nodes on the way down the left edge. */
  ghost function BlackHeight(t: Tree): nat {
    if t.Nil? then 0 else BlackHeight(t.left) + Unit(t.color)
  }

  /** Every path has the same number of black nodes and no red node has a red child. */
  ghost predicate Balanced(t: Tree) {
    match t
    case Nil => true
    case Fork(l, c, _, r) =>
      Balanced(l) && Balanced(r) && BlackHeight(l) == BlackHeight(r) && (c.Red? ==> !IsRed(l) && !IsRed(r))
  }

  /** Balance of everything but the hole, when the hole is due a subtree of black height `h`. */
  ghost predicate CtxBalanced(k: Ctx, h: nat) {
    match k
    case Top(_, _) => true
    case In(_, up, c, _, s) =>
      Balanced(s) && BlackHeight(s) == h && CtxBalanced(up, h + Unit(c)) &&
      (c.Red? ==> !IsRed(s) && up.In? && up.color.Black?)
  }

  /** No red node at the root, or below a red parent, where the tree meets the context. */
  ghost predicate Meets(k: Ctx, t: Tree) {
    k.Top? || k.color.Red? ==> !IsRed(t)
  }

  /** The conditions of the header comment, with a black root. */
  ghost predicate RedBlack(t: Tree) {
    Balanced(t) && !IsRed(t)
  }

  lemma {:induction false} PlugBalanced(k: Ctx, t: Tree)
    ensures RedBlack(Plug(k, t)) <==> Balanced(t) && CtxBalanced(k, BlackHeight(t)) && Meets(k, t)
  {
    if k.In? {
      var u := Mk(k.side, t, k.color, k.node, k.sibling);
      PlugBalanced(k.up, u);
      assert Balanced(u) == (Balanced(t) && Balanced(k.sibling) && BlackHeight(t) == BlackHeight(k.sibling) &&
                             (k.color.Red? ==> !IsRed(t) && !IsRed(k.sibling)));
    }
  }

  /** Balance does not depend on which node stands at a fork. */
  lemma {:induction false} JoinBalanced(path: Ctx, k: Ctx, k': Ctx, h: nat)
    requires k.In? && k'.In? && k.up == k'.up && k.color == k'.color && k.sibling == k'.sibling
    requires CtxBalanced(Join(path, k), h)
    ensures CtxBalanced(Join(path, k'), h)
  {
    if path.In? {
      JoinBalanced(path.up, k, k', h + Unit(path.color));
    }
  }

  /** Everything is balanced but for a red fork in focus that may have a red parent. */
  ghost predicate RedRed(k: Ctx, t: Tree) {
    IsRed(t) && Balanced(t) && CtxBalanced(k, BlackHeight(t))
  }

  /** A new red leaf in an empty hole of a red-black tree. */
  lemma InsertBalanced(k: Ctx, x: Node)
    requires RedBlack(Plug(k, Nil))
    ensures RedRed(k, Fork(Nil, Red, x, Nil))
  {
    PlugBalanced(k, Nil);
  }

  lemma RedParent(k: Ctx, t: Tree)
    requires RedRed(k, t) && k.In? && k.color.Red?
    ensures var h, s, g := BlackHeight(t), k.sibling, k.up;
            && Balanced(s) && !IsRed(s) && BlackHeight(s) == h
            && g.In? && g.color.Black? && Balanced(g.sibling) && BlackHeight(g.sibling) == h && CtxBalanced(g.up, h + 1)
            && Balanced(t.left) && !IsRed(t.left) && BlackHeight(t.left) == h
            && Balanced(t.right) && !IsRed(t.right) && BlackHeight(t.right) == h
  {
    assert CtxBalanced(k.up, BlackHeight(t));
  }

  lemma {:induction false} RecolorBalanced(k: Ctx, t: Tree)
    requires RedRed(k, t) && k.In? && k.color.Red? && IsRed(k.up.sibling)
    ensures var g := k.up;
            RedRed(g.up, Mk(g.side, Mk(k.side, t, Black, k.node, k.sibling), Red, g.node, g.sibling.(color := Black)))
  {
    var g := k.up;
    RedParent(k, t);
    var p := Mk(k.side, t, Black, k.node, k.sibling);
    assert Balanced(p) && BlackHeight(p) == BlackHeight(t) + 1;
    assert Balanced(g.sibling.(color := Black));
  }

  /** A red fork with a red parent whose sibling, the uncle, is black: lifting the parent ends the violation. */
  lemma LiftBalanced(d: Side, k: Ctx, x: Tree, p: Node, y: Tree, g: Node, u: Tree)
    requires IsRed(x) && Balanced(x) && Balanced(y) && !IsRed(y) && Balanced(u) && !IsRed(u)
    requires BlackHeight(x) == BlackHeight(y) == BlackHeight(u) && CtxBalanced(k, BlackHeight(x) + 1)
    ensures RedRed(In(d, k, Black, p, Mk(d, y, Red, g, u)), x)
  {
  }

  /** What the rotations of the insertion make of it: `tp` is the red parent, straightened. */
  lemma InsertTurned(k: Ctx, t: Tree, tp: Tree)
    requires RedRed(k, t) && k.In? && k.color.Red? && k.up.In? && !IsRed(k.up.sibling) && tp.Fork?
    requires Inorder(tp) == Inorder(Mk(k.side, t, Red, k.node, k.sibling))
    requires Balanced(tp.left) && Balanced(tp.right) && BlackHeight(tp.left) == BlackHeight(tp.right) == BlackHeight(t)
    requires if k.up.side.L? then IsRed(tp.left) && !IsRed(tp.right) else IsRed(tp.right) && !IsRed(tp.left)
    ensures var d, kg, g, u := k.up.side, k.up.up, k.up.node, k.up.sibling;
            var near, far := if d.L? then tp.right else tp.left, if d.L? then tp.left else tp.right;
            var k' := In(d, kg, Black, tp.node, Mk(d, near, Red, g, u));
            RedRed(k', far) && Inorder(Plug(k', far)) == Inorder(Plug(k, t)) && Base(k') == Base(k) && Depth(k') < Depth(k)
  {
    var kg, g, u := k.up.up, k.up.node, k.up.sibling;
    RedParent(k, t);
    if k.up.side.L? {
      LiftBalanced(L, kg, tp.left, tp.node, tp.right, g, u);
      RotateInorder(tp.left, tp.color, tp.node, tp.right, Black, g, u);
      SameInorder(kg, Fork(Mk(k.side, t, Red, k.node, k.sibling), Black, g, u),
                  Fork(tp.left, Black, tp.node, Fork(tp.right, Red, g, u)));
    } else {
      LiftBalanced(R, kg, tp.right, tp.node, tp.left, g, u);
      RotateInorder(u, Black, g, tp.left, tp.color, tp.node, tp.right);
      SameInorder(kg, Fork(u, Black, g, Mk(k.side, t, Red, k.node, k.sibling)),
                  Fork(Fork(u, Red, g, tp.left), Black, tp.node, tp.right));
    }
  }

  ghost function Blacken(t: Tree): Tree {
    if t.Nil? then t else t.(color := Black)
  }

  /** Everything is balanced but for the subtree in focus, one black node short; a red root there may be repainted. */
  ghost predicate Short(k: Ctx, t: Tree) {
    Balanced(Blacken(t)) && CtxBalanced(k, BlackHeight(t) + 1)
  }

  /** Below a short, black subtree's parent there is always a sibling, with the children the cases look at. */
  lemma ShortParts(k: Ctx, t: Tree)
    requires Short(k, t) && !IsRed(t) && k.In?
    ensures var h, s := BlackHeight(t), k.sibling;
            && Balanced(t) && s.Fork? && Balanced(s) && BlackHeight(s) == h + 1
            && CtxBalanced(k.up, h + 1 + Unit(k.color)) && (k.color.Red? ==> k.up.In? && k.up.color.Black?)
            && Balanced(s.left) && Balanced(s.right) && BlackHeight(s.left) == BlackHeight(s.right)
            && (IsRed(s) ==> k.color.Black? && s.left.Fork? && s.right.Fork? && !IsRed(s.left) && !IsRed(s.right))
            && (IsRed(s) ==> BlackHeight(s.left) == h + 1)
            && (!IsRed(s) ==> BlackHeight(s.left) == h)
  {
  }

  /** A red sibling is lifted over the parent: the focus goes one level down, to a black sibling. */
  lemma LiftedSibling(d: Side, k: Ctx, p: Node, t: Tree, near: Tree, x: Node, far: Tree)
    requires Short(In(d, k, Black, p, Mk(d, near, Red, x, far)), t) && !IsRed(t)
    ensures Short(In(d, In(d, k, Black, x, far), Red, p, near), t) && !IsRed(near)
  {
    ShortParts(In(d, k, Black, p, Mk(d, near, Red, x, far)), t);
  }

  /** A black sibling without red children turns red: the subtree at the parent is short now. */
  lemma {:induction false} SiblingReddened(k: Ctx, t: Tree)
    requires Short(k, t) && !IsRed(t) && k.In? && !IsRed(k.sibling)
    requires !IsRed(k.sibling.left) && !IsRed(k.sibling.right)
    ensures Short(k.up, Mk(k.side, t, k.color, k.node, k.sibling.(color := Red)))
  {
    ShortParts(k, t);
  }

  /** A red child of the sibling on the side away from the short subtree: one rotation restores balance everywhere. */
  lemma {:induction false} Settled(d: Side, k: Ctx, c: Color, p: Node, t: Tree, near: Tree, x: Node, far: Tree)
    requires Balanced(t) && Balanced(near) && Balanced(far) && IsRed(far)
    requires BlackHeight(t) == BlackHeight(near) == BlackHeight(far) && !IsRed(t)
    requires CtxBalanced(k, BlackHeight(t) + 1 + Unit(c)) && (c.Red? ==> k.In? && k.color.Black?)
    ensures RedBlack(Plug(k, Mk(d, Mk(d, t, Black, p, near), c, x, Blacken(far))))
  {
    var u := Mk(d, Mk(d, t, Black, p, near), c, x, Blacken(far));
    assert Balanced(Mk(d, t, Black, p, near)) && Balanced(Blacken(far));
    PlugBalanced(k, u);
  }

  /** `sib` was the sibling of t, `s` is what the first rotation made of it. */
  lemma SettledInorder(d: Side, k: Ctx, c: Color, p: Node, t: Tree, sib: Tree, s: Tree)
    requires s.Fork? && Inorder(s) == Inorder(sib)
    ensures d.L? ==> Inorder(Plug(k, Fork(Fork(t, Black, p, s.left), c, s.node, Blacken(s.right)))) == Inorder(Plug(k, Fork(t, c, p, sib)))
    ensures d.R? ==> Inorder(Plug(k, Fork(Blacken(s.left), c, s.node, Fork(s.right, Black, p, t)))) == Inorder(Plug(k, Fork(sib, c, p, t)))
  {
    if d.L? {
      RotateInorder(t, Black, p, s.left, c, s.node, Blacken(s.right));
      SameInorder(k, Fork(t, c, p, sib), Fork(Fork(t, Black, p, s.left), c, s.node, Blacken(s.right)));
    } else {
      RotateInorder(Blacken(s.left), c, s.node, s.right, Black, p, t);
      SameInorder(k, Fork(sib, c, p, t), Fork(Blacken(s.left), c, s.node, Fork(s.right, Black, p, t)));
    }
  }

  /** Painting a short subtree's red root black makes up for the missing black node; at the top none is missed. */
  lemma {:induction false} ShortBlackened(k: Ctx, t: Tree)
    requires Short(k, t) && (IsRed(t) || k.Top?)
    ensures RedBlack(Plug(k, Blacken(t))) && Inorder(Plug(k, Blacken(t))) == Inorder(Plug(k, t))
  {
    PlugBalanced(k, Blacken(t));
    SameInorder(k, t, Blacken(t));
  }

  /** What a node of colour `c` leaves behind when the subtree `t` takes its place. */
  ghost predicate Missing(k: Ctx, t: Tree, c: Color) {
    if c.Red? then RedBlack(Plug(k, t)) else Short(k, t)
  }

  lemma SplicedBalanced(k: Ctx, t: Tree, child: Tree)
    requires RedBlack(Plug(k, t)) && t.Fork?
    requires (t.left.Nil? && child == t.right) || (t.right.Nil? && child == t.left)
    ensures Missing(k, child, t.color)
  {
    PlugBalanced(k, t);
    PlugBalanced(k, child);
  }

  lemma {:induction false} ForkInorder(k: Ctx, t: Tree) returns (p: seq<Node>, q: seq<Node>)
    requires t.Fork?
    ensures p == Before(k) + Inorder(t.left) && q == Inorder(t.right) + After(k)
    ensures Inorder(Plug(k, t)) == p + [t.node] + q
  {
    p, q := Before(k) + Inorder(t.left), Inorder(t.right) + After(k);
    PlugInorder(k, t);
    assert Before(k) + (Inorder(t.left) + [t.node] + Inorder(t.right)) + After(k) == p + [t.node] + q;
  }

  /** The node right after t's: the leftmost one below its right child. */
  lemma NextFirst(k: Ctx, t: Tree, k': Ctx, t': Tree)
    requires t.Fork? && t'.Fork? && t'.left.Nil? && Plug(k', t') == Plug(k, t) && Before(k') == Before(k) + Inorder(t.left) + [t.node]
    ensures var q := Inorder(t.right) + After(k); q != [] && q[0] == t'.node
  {
    var p, q := ForkInorder(k, t);
    var p', q' := ForkInorder(k', t');
    assert p' == p + [t.node];
    SecondOf(p, t.node, q, t'.node, q');
  }

  lemma SecondOf(p: seq<Node>, x: Node, q: seq<Node>, y: Node, q': seq<Node>)
    requires p + [x] + q == p + [x] + [y] + q'
    ensures q != [] && q[0] == y
  {
    var s := p + [x] + [y] + q';
    assert |s| == |p| + 2 + |q'| && s[|p| + 1] == y;
    assert |p + [x] + q| == |p| + 1 + |q|;
    assert q != [];
    assert (p + [x] + q)[|p| + 1] == q[0];
  }

  lemma LeafInorder(k: Ctx, t: Tree) returns (p: seq<Node>, q: seq<Node>)
    requires t.Fork? && t.left.Nil? && t.right.Nil?
    ensures Inorder(Plug(k, Nil)) == p + q && Inorder(Plug(k, t)) == p + [t.node] + q
    ensures forall n :: n in p + [t.node] + q <==> n in p + q || n == t.node
  {
    p, q := SplicedInorder(k, t, Nil);
  }

  lemma {:induction false} SplicedInorder(k: Ctx, t: Tree, child: Tree) returns (p: seq<Node>, q: seq<Node>)
    requires t.Fork? && ((t.left.Nil? && child == t.right) || (t.right.Nil? && child == t.left))
    ensures Inorder(Plug(k, t)) == p + [t.node] + q && Inorder(Plug(k, child)) == p + q
  {
    p, q := ForkInorder(k, t);
    PlugInorder(k, child);
    if t.left.Nil? && child == t.right {
      assert p == Before(k);
    } else {
      assert q == After(k);
    }
  }

  /** The same with another node, of the same colour, higher up. */
  lemma JoinMissing(path: Ctx, k: Ctx, k': Ctx, t: Tree, c: Color)
    requires k.In? && k'.In? && k.up == k'.up && k.color == k'.color && k.sibling == k'.sibling
    requires Missing(Join(path, k), t, c)
    ensures Missing(Join(path, k'), t, c)
  {
    PlugBalanced(Join(path, k), t);
    PlugBalanced(Join(path, k'), t);
    JoinBalanced(path, k, k', if c.Red? then BlackHeight(t) else BlackHeight(t) + 1);
  }

  lemma RemovedInner(k: Ctx, t: Tree, path: Ctx, u: Tree)
    requires RedBlack(Plug(k, t)) && t.Fork? && LeftPath(path) && u.Fork? && u.left.Nil? && t.right == Plug(path, u)
    ensures var kr := In(R, k, t.color, u.node, t.left);
            && Missing(Join(path, kr), u.right, u.color) && Base(Join(path, kr)) == Base(k)
            && Plug(Join(path, kr), u.right) == Plug(k, Fork(t.left, t.color, u.node, Plug(path, u.right)))
  {
    var kr, kr' := In(R, k, t.color, t.node, t.left), In(R, k, t.color, u.node, t.left);
    PlugJoin(path, kr, u);
    SplicedBalanced(Join(path, kr), u, u.right);
    JoinMissing(path, kr, kr', u.right, u.color);
    JoinBase(path, kr');
    PlugJoin(path, kr', u.right);
  }

  /** The successor, least of the right subtree, moves up into the place of the fork's node. */
  lemma {:induction false} ReplacedInorder(k: Ctx, t: Tree, path: Ctx, u: Tree) returns (p: seq<Node>, q: seq<Node>)
    requires t.Fork? && LeftPath(path) && u.Fork? && u.left.Nil? && t.right == Plug(path, u)
    ensures Inorder(Plug(k, t)) == p + [t.node] + q
    ensures Inorder(Plug(k, Fork(t.left, t.color, u.node, Plug(path, u.right)))) == p + q
  {
    var v := Fork(t.left, t.color, u.node, Plug(path, u.right));
    LeastFirst(path, u);
    p, q := ForkInorder(k, t);
    var p', q' := ForkInorder(k, v);
    assert q == [u.node] + q';
    Associate(p, [u.node], q');
  }

  lemma {:induction false} LeastFirst(path: Ctx, u: Tree)
    requires LeftPath(path) && u.Fork? && u.left.Nil?
    ensures Inorder(Plug(path, u)) == [u.node] + Inorder(Plug(path, u.right))
  {
    PlugInorder(path, u);
    PlugInorder(path, u.right);
    LeftPathBefore(path);
    var b, a := Inorder(u.right), After(path);
    assert Inorder(u) == [] + [u.node] + b == [u.node] + b;
    assert Inorder(Plug(path, u.right)) == [] + b + a == b + a;
    Front(u.node, b, a);
  }

  lemma Front(x: Node, b: seq<Node>, a: seq<Node>)
    ensures [] + ([x] + b) + a == [x] + (b + a)
  {
  }

  lemma {:induction false} BaseTop(k: Ctx)
    ensures Base(k).Top?
  {
    if k.In? {
      BaseTop(k.up);
    }
  }

  /** Once the red fork has no red parent, a black root is all that is missing. */
  lemma RootBlackened(k: Ctx, t: Tree)
    requires RedRed(k, t) && (k.In? ==> k.color.Black?)
    ensures Base(k).Top? && Plug(k, t).Fork? && RedBlack(Plug(k, t).(color := Black))
  {
    BaseTop(k);
    PlugInorder(k, t);
    assert t.node in Inorder(t);
    if k.In? {
      PlugBalanced(k, t);
    }
  }

  // ---------- height ----------

  ghost function Height(t: Tree): nat {
    if t.Nil? then 0
    else 1 + if Height(t.left) > Height(t.right) then Height(t.left) else Height(t.right)
  }

  lemma SquareMonotone(a: nat, b: nat)
    requires a <= b
    ensures a * a <= b * b
  {
    assert b * b == a * a + (b - a) * (b + a);
  }

  lemma {:induction false} SizeAtLeast(t: Tree)
    requires Balanced(t)
    ensures Pow2(BlackHeight(t)) <= |Inorder(t)| + 1
  {
    if t.Fork? {
      SizeAtLeast(t.left);
      SizeAtLeast(t.right);
    }
  }

  lemma {:induction false} HeightAtMost(t: Tree)
    requires Balanced(t)
    ensures Height(t) <= 2 * BlackHeight(t) + if IsRed(t) then 1 else 0
  {
    if t.Fork? {
      HeightAtMost(t.left);
      HeightAtMost(t.right);
    }
  }

  /** "The maximum height of a red-black tree is 2lg (n+1)", without logarithms. */
  lemma HeightBound(t: Tree)
    requires RedBlack(t)
    ensures Pow2(Height(t)) <= (|Inorder(t)| + 1) * (|Inorder(t)| + 1)
  {
    var h, n := BlackHeight(t), |Inorder(t)| + 1;
    SizeAtLeast(t);
    HeightAtMost(t);
    Pow2Monotone(Height(t), h + h);
    Pow2Sum(h, h);
    SquareMonotone(Pow2(h), n);
  }
}
