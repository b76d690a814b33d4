/** When a store (the contents of all nodes of a tree) holds a tree or a context, and
    what the pointer writes of _Include/tree.h turn the tree into. A subtree is left
    alone by a write whenever the written node's key lies outside its interval, so no
    sets of nodes are needed. */
module RedBlackStore {
  import opened RedBlackShape

  datatype Row = Row(left: Node?, right: Node?, parent: Node?, color: Color)

  type Store = map<Node, Row>

  /** The store holds the tree `t`, hanging below `par`. */
  ghost predicate Rep(m: Store, t: Tree, par: Node?)
  {
    match t
    case Nil => true
    case Fork(l, c, n, r) => n in m && m[n] == Row(Ptr(l), Ptr(r), par, c) && Rep(m, l, n) && Rep(m, r, n)
  }

  ghost function MkRow(d: Side, near: Node?, far: Node?, par: Node?, c: Color): Row {
    if d.L? then Row(near, far, par, c) else Row(far, near, par, c)
  }

  /** The store holds the context `k` with the pointer `p` in its hole; `root` is the head's pointer. */
  ghost predicate CtxRep(m: Store, k: Ctx, p: Node?, root: Node?)
  {
    match k
    case Top(_, _) => root == p
    case In(d, up, c, n, s) =>
      n in m && m[n] == MkRow(d, p, Ptr(s), Par(up), c) && Rep(m, s, n) && CtxRep(m, up, n, root)
  }

  /** The store, entered at `root`, is the search tree Plug(k, t). */
  ghost predicate Zip(m: Store, root: Node?, k: Ctx, t: Tree) {
    Fits(k, t) && CtxRep(m, k, Ptr(t), root) && Rep(m, t, Par(k))
  }

  lemma ZipUp(m: Store, root: Node?, k: Ctx, t: Tree)
    requires k.In?
    ensures Zip(m, root, k, t) <==> Zip(m, root, k.up, Mk(k.side, t, k.color, k.node, k.sibling))
  {
  }

  /** Moving the focus along `path` says the same of the store. */
  lemma {:induction false} ZipJoin(m: Store, root: Node?, path: Ctx, k: Ctx, t: Tree)
    ensures Zip(m, root, Join(path, k), t) <==> Zip(m, root, k, Plug(path, t))
  {
    if path.In? {
      ZipUp(m, root, Join(path, k), t);
      ZipJoin(m, root, path.up, k, Mk(path.side, t, path.color, path.node, path.sibling));
    }
  }

  lemma {:induction false} ZipPlug(m: Store, root: Node?, k: Ctx, t: Tree)
    ensures Zip(m, root, k, t) <==> Zip(m, root, Base(k), Plug(k, t))
  {
    if k.In? {
      ZipUp(m, root, k, t);
      ZipPlug(m, root, k.up, Mk(k.side, t, k.color, k.node, k.sibling));
    }
  }

  lemma ZipWider(m: Store, root: Node?, t: Tree, lo: int, hi: int, lo': int, hi': int)
    requires Zip(m, root, Top(lo, hi), t) && lo' <= lo && hi <= hi'
    ensures Zip(m, root, Top(lo', hi'), t)
  {
    OrderedWider(t, lo, hi, lo', hi');
  }

  /** The root of the whole is not in the hole. */
  lemma {:induction false} RootOutside(m: Store, root: Node?, k: Ctx, t: Tree)
    requires Zip(m, root, k, t) && k.In?
    ensures root != null && root != Ptr(t) && !(Lo(k) < root.key < Hi(k))
  {
    HoleOutside(k);
    assert CtxRep(m, k.up, k.node, root);
    if k.up.In? {
      ZipUp(m, root, k, t);
      RootOutside(m, root, k.up, Mk(k.side, t, k.color, k.node, k.sibling));
    }
  }

  // ---------- what a write elsewhere leaves alone ----------

  /** The stores agree except on x, y, p and q. */
  ghost predicate SameBut(m: Store, m': Store, x: Node?, y: Node?, p: Node?, q: Node?) {
    forall n :: n in m && n != x && n != y && n != p && n != q ==> n in m' && m'[n] == m[n]
  }

  ghost predicate Out(x: Node?, lo: int, hi: int) {
    x != null ==> !(lo < x.key < hi)
  }

  lemma RepKept(m: Store, m': Store, t: Tree, par: Node?, lo: int, hi: int, x: Node?, y: Node?, p: Node?, q: Node?)
    requires Rep(m, t, par) && Ordered(t, lo, hi) && SameBut(m, m', x, y, p, q)
    requires Out(x, lo, hi) && Out(y, lo, hi) && Out(p, lo, hi) && Out(q, lo, hi)
    ensures Rep(m', t, par)
  {
    if t.Fork? {
      RepKept(m, m', t.left, t.node, lo, t.node.key, x, y, p, q);
      RepKept(m, m', t.right, t.node, t.node.key, hi, x, y, p, q);
    }
  }

  /** The same tree with its root hung below another parent. */
  lemma RepMoved(m: Store, m': Store, t: Tree, par: Node?, par': Node?, lo: int, hi: int, x: Node?, y: Node?, q: Node?)
    requires Rep(m, t, par) && Ordered(t, lo, hi) && SameBut(m, m', x, y, Ptr(t), q)
    requires Out(x, lo, hi) && Out(y, lo, hi) && Out(q, lo, hi)
    requires Reparented(m, m', t, par')
    ensures Rep(m', t, par')
  {
    if t.Fork? {
      RepKept(m, m', t.left, t.node, lo, t.node.key, x, y, t.node, q);
      RepKept(m, m', t.right, t.node, t.node.key, hi, x, y, t.node, q);
    }
  }

  /** The root of `t`, if there is one, has `p` for its parent now. */
  ghost predicate Reparented(m: Store, m': Store, t: Tree, p: Node?) {
    t.Fork? ==> t.node in m && t.node in m' && m'[t.node] == m[t.node].(parent := p)
  }

  ghost predicate InHole(x: Node?, k: Ctx) {
    x != null ==> Lo(k) < x.key < Hi(k)
  }

  lemma CtxKept(m: Store, m': Store, k: Ctx, p: Node?, root: Node?, x: Node?, y: Node?, z: Node?, q: Node?)
    requires CtxRep(m, k, p, root) && CtxOrdered(k) && SameBut(m, m', x, y, z, q)
    requires InHole(x, k) && InHole(y, k) && InHole(z, k) && InHole(q, k)
    ensures CtxRep(m', k, p, root)
  {
    if k.In? {
      CtxKept(m, m', k.up, k.node, root, x, y, z, q);
      if k.side.L? {
        RepKept(m, m', k.sibling, k.node, k.node.key, Hi(k.up), x, y, z, q);
      } else {
        RepKept(m, m', k.sibling, k.node, Lo(k.up), k.node.key, x, y, z, q);
      }
    }
  }

  /** The link into the hole of `k` leads to `p` now. */
  ghost predicate Relinked(m: Store, k: Ctx, p: Node?, root: Node?, root': Node?) {
    if k.Top? then root' == p
    else root' == root && k.node in m && m[k.node] == MkRow(k.side, p, Ptr(k.sibling), Par(k.up), k.color)
  }

  /** The same context with another pointer in its hole. */
  lemma CtxRehung(m: Store, m': Store, k: Ctx, p: Node?, p': Node?, root: Node?, root': Node?, x: Node?, y: Node?, z: Node?)
    requires CtxRep(m, k, p, root) && CtxOrdered(k) && SameBut(m, m', x, y, z, Par(k))
    requires InHole(x, k) && InHole(y, k) && InHole(z, k)
    requires Relinked(m', k, p', root, root')
    ensures CtxRep(m', k, p', root')
  {
    if k.In? {
      CtxKept(m, m', k.up, k.node, root, x, y, z, k.node);
      if k.side.L? {
        RepKept(m, m', k.sibling, k.node, k.node.key, Hi(k.up), x, y, z, k.node);
      } else {
        RepKept(m, m', k.sibling, k.node, Lo(k.up), k.node.key, x, y, z, k.node);
      }
    }
  }

  // ---------- what is stored at a focus ----------

  /** The rows at a focus, and that the link into the hole tells its side. */
  lemma Rows(m: Store, root: Node?, k: Ctx, t: Tree)
    requires Zip(m, root, k, t)
    ensures t.Fork? ==> t.node in m && m[t.node] == Row(Ptr(t.left), Ptr(t.right), Par(k), t.color)
    ensures if k.Top? then root == Ptr(t)
            else k.node in m && m[k.node] == MkRow(k.side, Ptr(t), Ptr(k.sibling), Par(k.up), k.color)
    ensures k.In? && t.Fork? ==> t.node != Ptr(k.sibling) && t.node != k.node
  {
    if k.In? && t.Fork? {
      HoleOutside(k);
    }
  }

  /** The rows a rotation reads, and that they belong to different nodes. */
  lemma RotateRows(d: Side, m: Store, root: Node?, k: Ctx, a: Tree, cx: Color, x: Node, b: Tree, cy: Color, y: Node, c: Tree)
    requires Zip(m, root, k, Mk(d, a, cx, x, Mk(d, b, cy, y, c)))
    ensures x in m && m[x] == MkRow(d, Ptr(a), y, Par(k), cx)
    ensures y in m && m[y] == MkRow(d, Ptr(b), Ptr(c), x, cy)
    ensures b.Fork? ==> b.node in m && m[b.node].parent == y
    ensures if k.Top? then root == x
            else k.node in m && m[k.node] == MkRow(k.side, x, Ptr(k.sibling), Par(k.up), k.color) && x != Ptr(k.sibling)
    ensures x != y && x != Ptr(b) && y != Ptr(b) && x != Par(k) && y != Par(k) && (k.In? ==> Ptr(b) != Par(k))
  {
    RotateParts(d, k, a, cx, x, b, cy, y, c);
    if k.In? {
      HoleOutside(k);
    }
    assert Rep(m, Mk(d, b, cy, y, c), x) && Rep(m, b, y);
  }

  lemma RotatedBelow(m: Store, m': Store, a: Tree, x: Node, la: int, ha: int, b: Tree, y: Node, lb: int, hb: int,
                     c: Tree, lc: int, hc: int, q: Node?)
    requires Rep(m, a, x) && Rep(m, b, y) && Rep(m, c, y) && SameBut(m, m', x, y, Ptr(b), q)
    requires Ordered(a, la, ha) && Ordered(b, lb, hb) && Ordered(c, lc, hc)
    requires Out(x, la, ha) && Out(y, la, ha) && Out(q, la, ha) && Out(Ptr(b), la, ha)
    requires Out(x, lb, hb) && Out(y, lb, hb) && Out(q, lb, hb)
    requires Out(x, lc, hc) && Out(y, lc, hc) && Out(q, lc, hc) && Out(Ptr(b), lc, hc)
    requires Reparented(m, m', b, x)
    ensures Rep(m', a, x) && Rep(m', b, x) && Rep(m', c, y)
  {
    RepKept(m, m', a, x, la, ha, x, y, Ptr(b), q);
    RepKept(m, m', c, y, lc, hc, x, y, Ptr(b), q);
    RepMoved(m, m', b, y, x, lb, hb, x, y, q);
  }

  /** A rotation: x, whose child away from `d` is y, changes places with y. */
  lemma Rotated(d: Side, m: Store, m': Store, root: Node?, root': Node?, k: Ctx,
                a: Tree, cx: Color, x: Node, b: Tree, cy: Color, y: Node, c: Tree)
    requires Zip(m, root, k, Mk(d, a, cx, x, Mk(d, b, cy, y, c)))
    requires SameBut(m, m', x, y, Ptr(b), Par(k))
    requires x in m' && m'[x] == MkRow(d, Ptr(a), Ptr(b), y, cx)
    requires y in m' && m'[y] == MkRow(d, x, Ptr(c), Par(k), cy)
    requires Reparented(m, m', b, x)
    requires Relinked(m', k, y, root, root')
    ensures Zip(m', root', k, Mk(d, Mk(d, a, cx, x, b), cy, y, c))
  {
    var u, v := Mk(d, b, cy, y, c), Mk(d, a, cx, x, b);
    assert Mk(d, v, cy, y, c) == if d.L? then Fork(v, cy, y, c) else Fork(c, cy, y, v);
    RotateParts(d, k, a, cx, x, b, cy, y, c);
    CtxRehung(m, m', k, x, y, root, root', x, y, Ptr(b));
    assert Rep(m, u, x);
    if k.In? {
      HoleOutside(k);
    }
    if d.L? {
      RotatedBelow(m, m', a, x, Lo(k), x.key, b, y, x.key, y.key, c, y.key, Hi(k), Par(k));
    } else {
      RotatedBelow(m, m', a, x, x.key, Hi(k), b, y, y.key, x.key, c, Lo(k), y.key, Par(k));
    }
    assert Rep(m', v, y);
  }

  lemma Painted(m: Store, m': Store, root: Node?, k: Ctx, t: Tree, c: Color)
    requires Zip(m, root, k, t) && t.Fork? && SameBut(m, m', t.node, null, null, null)
    requires t.node in m' && m'[t.node] == m[t.node].(color := c)
    ensures Zip(m', root, k, t.(color := c))
  {
    CtxKept(m, m', k, t.node, root, t.node, null, null, null);
    RepKept(m, m', t.left, t.node, Lo(k), t.node.key, t.node, null, null, null);
    RepKept(m, m', t.right, t.node, t.node.key, Hi(k), t.node, null, null, null);
  }

  /** Forgetting a node that is not in the tree. */
  lemma {:induction false} RepForget(m: Store, t: Tree, par: Node?, x: Node)
    requires Rep(m, t, par) && x !in Inorder(t)
    ensures Rep(m - {x}, t, par)
  {
    if t.Fork? {
      RepForget(m, t.left, t.node, x);
      RepForget(m, t.right, t.node, x);
    }
  }

  /** A red leaf put into an empty hole. */
  lemma Linked(m: Store, m': Store, root: Node?, root': Node?, k: Ctx, x: Node)
    requires Zip(m, root, k, Nil) && Lo(k) < x.key < Hi(k) && SameBut(m, m', x, null, null, Par(k))
    requires x in m' && m'[x] == Row(null, null, Par(k), Red) && Relinked(m', k, x, root, root')
    ensures Zip(m', root', k, Fork(Nil, Red, x, Nil))
  {
    CtxRehung(m, m', k, null, x, root, root', x, null, null);
    assert Ordered(Nil, Lo(k), x.key) && Ordered(Nil, x.key, Hi(k));
  }

  /** A fork with at most one child gives way to that child. */
  lemma Spliced(m: Store, m': Store, root: Node?, root': Node?, k: Ctx, t: Tree, child: Tree)
    requires Zip(m, root, k, t) && t.Fork?
    requires (t.left.Nil? && child == t.right) || (t.right.Nil? && child == t.left)
    requires SameBut(m, m', Ptr(child), null, null, Par(k)) && Relinked(m', k, Ptr(child), root, root')
    requires Reparented(m, m', child, Par(k))
    ensures Zip(m', root', k, child)
  {
    assert Ordered(t.left, Lo(k), t.node.key) && Ordered(t.right, t.node.key, Hi(k));
    CtxRehung(m, m', k, t.node, Ptr(child), root, root', Ptr(child), null, null);
    if k.In? {
      HoleOutside(k);
    }
    if t.left.Nil? && child == t.right {
      RepMoved(m, m', child, t.node, Par(k), t.node.key, Hi(k), null, null, Par(k));
      OrderedWider(child, t.node.key, Hi(k), Lo(k), Hi(k));
    } else {
      RepMoved(m, m', child, t.node, Par(k), Lo(k), t.node.key, null, null, Par(k));
      OrderedWider(child, Lo(k), t.node.key, Lo(k), Hi(k));
    }
  }

  /** The node `x`, with a key between the two subtrees, takes the place of the node of the fork. */
  lemma Replaced(m: Store, m': Store, root: Node?, root': Node?, k: Ctx, t: Tree, x: Node)
    requires Zip(m, root, k, t) && t.Fork? && t.node.key < x.key < Hi(k) && Ordered(t.right, x.key, Hi(k))
    requires SameBut(m, m', x, Ptr(t.left), Ptr(t.right), Par(k)) && Relinked(m', k, x, root, root')
    requires x in m' && m'[x] == Row(Ptr(t.left), Ptr(t.right), Par(k), t.color)
    requires Reparented(m, m', t.left, x)
    requires Reparented(m, m', t.right, x)
    ensures Zip(m', root', k, t.(node := x))
  {
    assert Ordered(t.left, Lo(k), t.node.key);
    CtxRehung(m, m', k, t.node, x, root, root', x, Ptr(t.left), Ptr(t.right));
    if k.In? {
      HoleOutside(k);
    }
    RepMoved(m, m', t.left, t.node, x, Lo(k), t.node.key, x, Ptr(t.right), Par(k));
    RepMoved(m, m', t.right, t.node, x, x.key, Hi(k), x, Ptr(t.left), Par(k));
    OrderedWider(t.left, Lo(k), t.node.key, Lo(k), x.key);
  }

  /** The rows read and written when a fork gives way to its child. */
  lemma SpliceRows(m: Store, root: Node?, k: Ctx, t: Tree, child: Tree)
    requires Zip(m, root, k, t) && t.Fork?
    requires (t.left.Nil? && child == t.right) || (t.right.Nil? && child == t.left)
    ensures t.node in m && t.node != Ptr(child) && t.node != Par(k)
    ensures child.Fork? ==> child.node in m && child.node != Par(k)
    ensures if k.Top? then root == t.node
            else k.node in m && m[k.node] == MkRow(k.side, t.node, Ptr(k.sibling), Par(k.up), k.color) && t.node != Ptr(k.sibling)
  {
    assert Ordered(t.left, Lo(k), t.node.key) && Ordered(t.right, t.node.key, Hi(k));
    assert Rep(m, child, t.node);
    if k.In? {
      HoleOutside(k);
    }
  }

  /** The rows read and written when the node x replaces the node of a fork. */
  lemma ReplaceRows(m: Store, root: Node?, k: Ctx, t: Tree, x: Node)
    requires Zip(m, root, k, t) && t.Fork? && t.left.Fork?
    requires t.node.key < x.key < Hi(k) && Ordered(t.right, x.key, Hi(k))
    ensures var n, l, r, p := t.node, t.left.node, Ptr(t.right), Par(k);
            && n in m && m[n] == Row(l, r, p, t.color) && l in m && (r != null ==> r in m) && (p != null ==> p in m)
            && x != n && x != p && x != l && x != r && p != l && (p != null ==> p != r) && l != r && n != p && n != l && n != r
            && m[l].parent == n && (r != null ==> m[r].parent == n)
    ensures if k.Top? then root == t.node
            else m[k.node] == MkRow(k.side, t.node, Ptr(k.sibling), Par(k.up), k.color) && t.node != Ptr(k.sibling)
  {
    assert Ordered(t.left, Lo(k), t.node.key);
    assert Rep(m, t.left, t.node) && Rep(m, t.right, t.node);
    if k.In? {
      HoleOutside(k);
    }
  }
}
