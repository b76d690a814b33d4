/** The values behind the splay tree of _Include/tree.h: search trees over heap nodes,
    the left and right parts that SPLAY builds around its dummy node, and what it means
    for a store (the contents of all nodes) to hold them. */
module SplayShape {
  import opened KeySets

  /** An element with its SPLAY_ENTRY. */
  class Node {
    const key: int
    var left: Node?
    var right: Node?

    constructor (key: int)
      ensures this.key == key && left == null && right == null
    {
      this.key := key;
      left, right := null, null;
    }
  }

  datatype Tree = Nil | Fork(left: Tree, node: Node, right: Tree)

  datatype Side = L | R

  /** The part on one side of the dummy: a chain of nodes with a subtree each, the last linked first.
      The left part hangs together by right links and is open at the last node's right link;
      the right part is its mirror image. */
  datatype Part = Empty | Chain(up: Part, node: Node, sub: Tree)

  ghost function Ptr(t: Tree): Node? {
    if t.Nil? then null else t.node
  }

  ghost function Inorder(t: Tree): seq<Node> {
    match t
    case Nil => []
    case Fork(l, n, r) => Inorder(l) + [n] + Inorder(r)
  }

  ghost function PartInorder(d: Side, p: Part): seq<Node> {
    match p
    case Empty => []
    case Chain(up, n, s) =>
      if d.L? then PartInorder(d, up) + (Inorder(s) + [n]) else [n] + Inorder(s) + PartInorder(d, up)
  }

  /** The whole part, with `t` in its open link. */
  ghost function Close(d: Side, p: Part, t: Tree): Tree {
    match p
    case Empty => t
    case Chain(up, n, s) => Close(d, up, if d.L? then Fork(s, n, t) else Fork(t, n, s))
  }

  lemma {:induction false} CloseInorder(d: Side, p: Part, t: Tree)
    ensures d.L? ==> Inorder(Close(d, p, t)) == PartInorder(d, p) + Inorder(t)
    ensures d.R? ==> Inorder(Close(d, p, t)) == Inorder(t) + PartInorder(d, p)
  {
    if p.Chain? {
      CloseInorder(d, p.up, if d.L? then Fork(p.sub, p.node, t) else Fork(t, p.node, p.sub));
    }
  }

  // ---------- search order ----------

  /** A search tree with keys strictly between `lo` and `hi`. */
  ghost predicate Ordered(t: Tree, lo: int, hi: int) {
    match t
    case Nil => true
    case Fork(l, n, r) => lo < n.key < hi && Ordered(l, lo, n.key) && Ordered(r, n.key, hi)
  }

  lemma OrderedWider(t: Tree, lo: int, hi: int, lo': int, hi': int)
    requires Ordered(t, lo, hi) && lo' <= lo && hi <= hi'
    ensures Ordered(t, lo', hi')
  {
  }

  ghost function Key(n: Node): int {
    n.key
  }

  ghost predicate Ascending(s: seq<Node>) {
    Sorted(s, Key)
  }

  lemma {:induction false} InorderAscending(t: Tree, lo: int, hi: int)
    requires Ordered(t, lo, hi)
    ensures Ascending(Inorder(t)) && forall n :: n in Inorder(t) ==> lo < n.key < hi
  {
    if t.Fork? {
      InorderAscending(t.left, lo, t.node.key);
      InorderAscending(t.right, t.node.key, hi);
      var l, r := Inorder(t.left), Inorder(t.right);
      assert forall i :: 0 <= i < |l| ==> l[i] in l;
      assert forall i :: 0 <= i < |r| ==> r[i] in r;
    }
  }

  /** Which bound on the keys between the parts the part gives; `end` is the bound if it is empty. */
  ghost function Edge(p: Part, end: int): int {
    if p.Empty? then end else p.node.key
  }

  ghost predicate PartOrdered(d: Side, p: Part, end: int) {
    match p
    case Empty => true
    case Chain(up, n, s) =>
      PartOrdered(d, up, end) &&
      if d.L? then Edge(up, end) < n.key && Ordered(s, Edge(up, end), n.key)
      else n.key < Edge(up, end) && Ordered(s, n.key, Edge(up, end))
  }

  /** Closed with a tree that ends at `x`, a part is a search tree that ends at `x`. */
  lemma {:induction false} CloseOrdered(d: Side, p: Part, t: Tree, end: int, x: int)
    requires PartOrdered(d, p, end)
    requires if d.L? then Edge(p, end) < x && Ordered(t, Edge(p, end), x) else x < Edge(p, end) && Ordered(t, x, Edge(p, end))
    ensures if d.L? then Ordered(Close(d, p, t), end, x) else Ordered(Close(d, p, t), x, end)
  {
    if p.Chain? {
      if d.L? {
        CloseOrdered(d, p.up, Fork(p.sub, p.node, t), end, x);
      } else {
        CloseOrdered(d, p.up, Fork(t, p.node, p.sub), end, x);
      }
    }
  }

  // ---------- stores ----------

  datatype Row = Row(left: Node?, right: Node?)

  type Store = map<Node, Row>

  ghost predicate Rep(m: Store, t: Tree) {
    match t
    case Nil => true
    case Fork(l, n, r) => n in m && m[n] == Row(Ptr(l), Ptr(r)) && Rep(m, l) && Rep(m, r)
  }

  /** The open link of the last node. */
  ghost function Open(d: Side, r: Row): Node? {
    if d.L? then r.right else r.left
  }

  ghost function Inner(d: Side, r: Row): Node? {
    if d.L? then r.left else r.right
  }

  ghost predicate PartRep(m: Store, d: Side, p: Part) {
    match p
    case Empty => true
    case Chain(up, n, s) =>
      n in m && Inner(d, m[n]) == Ptr(s) && Rep(m, s) && PartRep(m, d, up) && (up.Chain? ==> Open(d, m[up.node]) == n)
  }

  ghost function First(p: Part): Node
    requires p.Chain?
  {
    if p.up.Empty? then p.node else First(p.up)
  }

  ghost predicate SameBut(m: Store, m': Store, x: Node?, y: Node?, p: Node?) {
    forall n :: n in m && n != x && n != y && n != p ==> n in m' && m'[n] == m[n]
  }

  ghost predicate Out(x: Node?, lo: int, hi: int) {
    x != null ==> !(lo < x.key < hi)
  }

  lemma RepKept(m: Store, m': Store, t: Tree, lo: int, hi: int, x: Node?, y: Node?, p: Node?)
    requires Rep(m, t) && Ordered(t, lo, hi) && SameBut(m, m', x, y, p)
    requires Out(x, lo, hi) && Out(y, lo, hi) && Out(p, lo, hi)
    ensures Rep(m', t)
  {
    if t.Fork? {
      RepKept(m, m', t.left, lo, t.node.key, x, y, p);
      RepKept(m, m', t.right, t.node.key, hi, x, y, p);
    }
  }

  /** x lies beyond the last node of the part, seen from its end. */
  ghost predicate Beyond(d: Side, x: Node?, edge: int) {
    x != null ==> if d.L? then edge < x.key else x.key < edge
  }

  lemma PartKept(m: Store, m': Store, d: Side, p: Part, end: int, x: Node?, y: Node?, z: Node?)
    requires PartRep(m, d, p) && PartOrdered(d, p, end) && SameBut(m, m', x, y, z)
    requires Beyond(d, x, Edge(p, end)) && Beyond(d, y, Edge(p, end)) && Beyond(d, z, Edge(p, end))
    ensures PartRep(m', d, p)
  {
    if p.Chain? {
      PartKept(m, m', d, p.up, end, x, y, z);
      if d.L? {
        RepKept(m, m', p.sub, Edge(p.up, end), p.node.key, x, y, z);
      } else {
        RepKept(m, m', p.sub, p.node.key, Edge(p.up, end), x, y, z);
      }
    }
  }

  /** The open link of the last node is set. */
  lemma PartReopened(m: Store, m': Store, d: Side, p: Part, end: int, x: Node?, y: Node?)
    requires p.Chain? && PartRep(m, d, p) && PartOrdered(d, p, end) && SameBut(m, m', x, y, p.node)
    requires Beyond(d, x, p.node.key) && Beyond(d, y, p.node.key)
    requires p.node in m' && Inner(d, m'[p.node]) == Inner(d, m[p.node])
    ensures PartRep(m', d, p)
  {
    PartKept(m, m', d, p.up, end, x, y, p.node);
    if d.L? {
      RepKept(m, m', p.sub, Edge(p.up, end), p.node.key, x, y, p.node);
    } else {
      RepKept(m, m', p.sub, p.node.key, Edge(p.up, end), x, y, p.node);
    }
  }

  /** With its open link set to `t`, a part is a tree, entered at its first node. */
  lemma {:induction false} PartClosed(m: Store, d: Side, p: Part, t: Tree)
    requires PartRep(m, d, p) && Rep(m, t) && (p.Chain? ==> Open(d, m[p.node]) == Ptr(t))
    ensures Rep(m, Close(d, p, t)) && Ptr(Close(d, p, t)) == if p.Chain? then First(p) else Ptr(t)
  {
    if p.Chain? {
      var u := if d.L? then Fork(p.sub, p.node, t) else Fork(t, p.node, p.sub);
      assert Rep(m, u);
      PartClosed(m, d, p.up, u);
    }
  }

  /** Everything SPLAY holds in its loop: the left part, the tree at the head's root, the right part. */
  ghost predicate Mid(m: Store, l: Part, t: Tree, r: Part, lo: int, hi: int) {
    && PartOrdered(L, l, lo) && PartOrdered(R, r, hi) && Edge(l, lo) < Edge(r, hi)
    && Ordered(t, Edge(l, lo), Edge(r, hi))
    && PartRep(m, L, l) && PartRep(m, R, r) && Rep(m, t)
  }

  ghost function MidInorder(l: Part, t: Tree, r: Part): seq<Node> {
    PartInorder(L, l) + Inorder(t) + PartInorder(R, r)
  }

  ghost function Assembled(l: Part, t: Tree, r: Part): Tree
    requires t.Fork?
  {
    Fork(Close(L, l, t.left), t.node, Close(R, r, t.right))
  }

  lemma AssembledInorder(l: Part, t: Tree, r: Part)
    requires t.Fork?
    ensures Inorder(Assembled(l, t, r)) == MidInorder(l, t, r)
  {
    CloseInorder(L, l, t.left);
    CloseInorder(R, r, t.right);
  }

  /** The nodes the macros write are in the store, differ, and have keys between the bounds. */
  lemma TopRows(m: Store, l: Part, t: Tree, r: Part, lo: int, hi: int)
    requires Mid(m, l, t, r, lo, hi) && t.Fork?
    ensures t.node in m && m[t.node] == Row(Ptr(t.left), Ptr(t.right)) && lo < t.node.key < hi
    ensures t.left.Fork? ==> var x := t.left.node; x in m && m[x] == Row(Ptr(t.left.left), Ptr(t.left.right)) && lo < x.key < t.node.key
    ensures t.right.Fork? ==> var x := t.right.node; x in m && m[x] == Row(Ptr(t.right.left), Ptr(t.right.right)) && t.node.key < x.key < hi
    ensures l.Chain? ==> l.node in m && m[l.node].left == Ptr(l.sub) && lo < l.node.key < t.node.key
    ensures r.Chain? ==> r.node in m && m[r.node].right == Ptr(r.sub) && t.node.key < r.node.key < hi
  {
    EdgeInside(L, l, lo);
    EdgeInside(R, r, hi);
    assert Ordered(t.left, Edge(l, lo), t.node.key) && Ordered(t.right, t.node.key, Edge(r, hi));
    assert Rep(m, t.left) && Rep(m, t.right);
    if l.Chain? {
      EdgeInside(L, l.up, lo);
    }
    if r.Chain? {
      EdgeInside(R, r.up, hi);
    }
  }

  // ---------- what the macros do to it ----------

  lemma RotatedRight(m: Store, m': Store, l: Part, t: Tree, r: Part, lo: int, hi: int)
    requires Mid(m, l, t, r, lo, hi) && t.Fork? && t.left.Fork?
    requires var x, y := t.left.node, t.node;
             && SameBut(m, m', x, y, null) && x in m' && y in m'
             && m'[x] == Row(Ptr(t.left.left), y) && m'[y] == Row(Ptr(t.left.right), Ptr(t.right))
    ensures Mid(m', l, Fork(t.left.left, t.left.node, Fork(t.left.right, t.node, t.right)), r, lo, hi)
  {
    var x, y, a, b, c := t.left.node, t.node, t.left.left, t.left.right, t.right;
    var p, q := Edge(l, lo), Edge(r, hi);
    assert Ordered(t.left, p, y.key) && Rep(m, t.left);
    PartKept(m, m', L, l, lo, x, y, null);
    PartKept(m, m', R, r, hi, x, y, null);
    RepKept(m, m', a, p, x.key, x, y, null);
    RepKept(m, m', b, x.key, y.key, x, y, null);
    RepKept(m, m', c, y.key, q, x, y, null);
    assert Ordered(Fork(b, y, c), x.key, q) && Rep(m', Fork(b, y, c));
  }

  lemma RotatedLeft(m: Store, m': Store, l: Part, t: Tree, r: Part, lo: int, hi: int)
    requires Mid(m, l, t, r, lo, hi) && t.Fork? && t.right.Fork?
    requires var x, y := t.right.node, t.node;
             && SameBut(m, m', x, y, null) && x in m' && y in m'
             && m'[x] == Row(y, Ptr(t.right.right)) && m'[y] == Row(Ptr(t.left), Ptr(t.right.left))
    ensures Mid(m', l, Fork(Fork(t.left, t.node, t.right.left), t.right.node, t.right.right), r, lo, hi)
  {
    var x, y, a, b, c := t.right.node, t.node, t.right.right, t.right.left, t.left;
    var p, q := Edge(l, lo), Edge(r, hi);
    assert Ordered(t.right, y.key, q) && Rep(m, t.right);
    PartKept(m, m', L, l, lo, x, y, null);
    PartKept(m, m', R, r, hi, x, y, null);
    RepKept(m, m', a, x.key, q, x, y, null);
    RepKept(m, m', b, y.key, x.key, x, y, null);
    RepKept(m, m', c, p, y.key, x, y, null);
    assert Ordered(Fork(c, y, b), p, x.key) && Rep(m', Fork(c, y, b));
  }

  ghost function Last(p: Part): Node? {
    if p.Empty? then null else p.node
  }

  /** The open link of the last node of the part leads to `x`; its other link is as before. */
  ghost predicate Opened(m: Store, m': Store, d: Side, p: Part, x: Node?) {
    p.Chain? ==> p.node in m && p.node in m' && Inner(d, m'[p.node]) == Inner(d, m[p.node]) && Open(d, m'[p.node]) == x
  }

  lemma LinkedLeft(m: Store, m': Store, l: Part, t: Tree, r: Part, lo: int, hi: int)
    requires Mid(m, l, t, r, lo, hi) && t.Fork? && SameBut(m, m', Last(r), null, null) && Opened(m, m', R, r, t.node)
    ensures Mid(m', l, t.left, Chain(r, t.node, t.right), lo, hi)
  {
    PartKept(m, m', L, l, lo, Last(r), null, null);
    if r.Chain? {
      PartReopened(m, m', R, r, hi, null, null);
    }
    RepKept(m, m', t, Edge(l, lo), Edge(r, hi), Last(r), null, null);
  }

  lemma LinkedRight(m: Store, m': Store, l: Part, t: Tree, r: Part, lo: int, hi: int)
    requires Mid(m, l, t, r, lo, hi) && t.Fork? && SameBut(m, m', Last(l), null, null) && Opened(m, m', L, l, t.node)
    ensures Mid(m', Chain(l, t.node, t.left), t.right, r, lo, hi)
  {
    PartKept(m, m', R, r, hi, Last(l), null, null);
    if l.Chain? {
      PartReopened(m, m', L, l, lo, null, null);
    }
    RepKept(m, m', t, Edge(l, lo), Edge(r, hi), Last(l), null, null);
  }

  /** Both parts are closed and hung below the root. */
  lemma Reassembled(m: Store, m': Store, l: Part, t: Tree, r: Part, lo: int, hi: int)
    requires Mid(m, l, t, r, lo, hi) && t.Fork? && SameBut(m, m', Last(l), Last(r), t.node)
    requires Opened(m, m', L, l, Ptr(t.left)) && Opened(m, m', R, r, Ptr(t.right))
    requires t.node in m' && m'[t.node] == Row(if l.Chain? then First(l) else Ptr(t.left),
                                               if r.Chain? then First(r) else Ptr(t.right))
    ensures Rep(m', Assembled(l, t, r)) && Ordered(Assembled(l, t, r), lo, hi)
  {
    var p, q, n := Edge(l, lo), Edge(r, hi), t.node;
    RepKept(m, m', t.left, p, n.key, Last(l), Last(r), n);
    RepKept(m, m', t.right, n.key, q, Last(l), Last(r), n);
    if l.Chain? {
      PartReopened(m, m', L, l, lo, Last(r), n);
    }
    if r.Chain? {
      PartReopened(m, m', R, r, hi, Last(l), n);
    }
    PartClosed(m', L, l, t.left);
    PartClosed(m', R, r, t.right);
    EdgeInside(L, l, lo);
    EdgeInside(R, r, hi);
    CloseOrdered(L, l, t.left, lo, n.key);
    CloseOrdered(R, r, t.right, hi, n.key);
  }

  lemma {:induction false} EdgeInside(d: Side, p: Part, end: int)
    requires PartOrdered(d, p, end)
    ensures if d.L? then end <= Edge(p, end) else Edge(p, end) <= end
  {
    if p.Chain? {
      EdgeInside(d, p.up, end);
    }
  }

  /** All keys left of the root are below `key`, all keys right of it above: the root is the element
      with that key, or one next to where it would be. */
  ghost predicate Around(t: Tree, key: int, lo: int, hi: int) {
    t.Fork? && Ordered(t.left, lo, key) && Ordered(t.right, key, hi)
  }

  lemma AssembledAround(l: Part, t: Tree, r: Part, lo: int, hi: int, key: int)
    requires PartOrdered(L, l, lo) && PartOrdered(R, r, hi) && Edge(l, lo) < key < Edge(r, hi)
    requires t.Fork? && Ordered(t, Edge(l, lo), Edge(r, hi))
    requires key == t.node.key || (key < t.node.key && t.left.Nil?) || (key > t.node.key && t.right.Nil?)
    ensures Around(Assembled(l, t, r), key, lo, hi)
  {
    if key < t.node.key {
      OrderedWider(t.right, t.node.key, Edge(r, hi), key, Edge(r, hi));
    } else if key > t.node.key {
      OrderedWider(t.left, Edge(l, lo), t.node.key, Edge(l, lo), key);
    }
    CloseOrdered(L, l, t.left, lo, key);
    CloseOrdered(R, r, t.right, hi, key);
  }

  /** An element with the key splayed for stands at the root. */
  lemma AroundFinds(t: Tree, x: Node, lo: int, hi: int)
    requires Around(t, x.key, lo, hi) && x in Inorder(t)
    ensures t.node == x
  {
    InorderAscending(t.left, lo, x.key);
    InorderAscending(t.right, x.key, hi);
  }

  /** No element comes between the key and the root. */
  lemma AroundNext(t: Tree, key: int, lo: int, hi: int)
    requires Around(t, key, lo, hi) && Ordered(t, lo, hi)
    ensures forall n :: n in Inorder(t) ==> !(key <= n.key < t.node.key) && !(t.node.key < n.key <= key)
  {
    InorderAscending(t.left, lo, key);
    InorderAscending(t.left, lo, t.node.key);
    InorderAscending(t.right, key, hi);
    InorderAscending(t.right, t.node.key, hi);
  }

  /** If the root has another key, no element has the key. */
  lemma AroundMisses(t: Tree, key: int, lo: int, hi: int)
    requires Around(t, key, lo, hi) && t.node.key != key
    ensures forall n :: n in Inorder(t) ==> n.key != key
  {
    InorderAscending(t.left, lo, key);
    InorderAscending(t.right, key, hi);
  }

  /** If all keys are above `key`, or all below it, the root has no child on the other side. */
  lemma AroundEnd(t: Tree, key: int, lo: int, hi: int)
    requires Around(t, key, lo, hi)
    ensures (forall n :: n in Inorder(t) ==> key < n.key) ==> t.left.Nil?
    ensures (forall n :: n in Inorder(t) ==> n.key < key) ==> t.right.Nil?
  {
    assert t.left.Fork? ==> t.left.node in Inorder(t.left);
    assert t.right.Fork? ==> t.right.node in Inorder(t.right);
  }

  // ---------- how deep the search path ends up ----------

  /** The nodes on the way to a key. */
  ghost function Path(t: Tree, key: int): seq<Node> {
    match t
    case Nil => []
    case Fork(l, n, r) => [n] + if key < n.key then Path(l, key) else if key > n.key then Path(r, key) else []
  }

  /** The nodes from the root down to the least element, or to the greatest. */
  ghost function Spine(d: Side, t: Tree): seq<Node> {
    if t.Nil? then [] else [t.node] + Spine(d, if d.L? then t.left else t.right)
  }

  lemma {:induction false} SpinePath(d: Side, t: Tree, key: int)
    requires forall n :: n in Inorder(t) ==> if d.L? then key < n.key else n.key < key
    ensures Spine(d, t) == Path(t, key)
  {
    if t.Fork? {
      assert t.node in Inorder(t);
      assert forall n :: n in Inorder(t.left) || n in Inorder(t.right) ==> n in Inorder(t);
      SpinePath(d, if d.L? then t.left else t.right, key);
    }
  }

  /** n stands in the tree, at most d links below its root. */
  ghost predicate Within(t: Tree, n: Node, d: nat)
    decreases t
  {
    t.Fork? && (n == t.node || (d > 0 && (Within(t.left, n, d - 1) || Within(t.right, n, d - 1))))
  }

  lemma WithinMore(t: Tree, n: Node, d: nat, d': nat)
    requires Within(t, n, d) && d <= d'
    ensures Within(t, n, d')
  {
  }

  ghost function Length(p: Part): nat {
    if p.Empty? then 0 else 1 + Length(p.up)
  }

  /** n is on the chain of the part, or the first node off it. */
  ghost predicate Near(p: Part, n: Node) {
    p.Chain? && (n == p.node || n == Ptr(p.sub) || Near(p.up, n))
  }

  lemma {:induction false} CloseWithin(d: Side, p: Part, t: Tree, n: Node, m: nat)
    requires Within(t, n, m)
    ensures Within(Close(d, p, t), n, m + Length(p))
  {
    if p.Chain? {
      CloseWithin(d, p.up, if d.L? then Fork(p.sub, p.node, t) else Fork(t, p.node, p.sub), n, m + 1);
    }
  }

  /** What is near the part is no deeper than the part is long. */
  lemma {:induction false} CloseNear(d: Side, p: Part, t: Tree, n: Node)
    requires Near(p, n)
    ensures Within(Close(d, p, t), n, Length(p))
  {
    var u := if d.L? then Fork(p.sub, p.node, t) else Fork(t, p.node, p.sub);
    if n == p.node || n == Ptr(p.sub) {
      assert Within(u, n, 1) && (n == p.node ==> Within(u, n, 0));
      CloseWithin(d, p.up, u, n, 1);
    } else {
      CloseNear(d, p.up, u, n);
      WithinMore(Close(d, p.up, u), n, Length(p.up), Length(p));
    }
  }

  /** In the middle of SPLAY: of the path to the key, what is not ahead is near one of the parts, and they are no longer
      than half of what is behind. A part may be one ahead of that while the path does not go its way. */
  ghost predicate Tracked(path: seq<Node>, key: int, l: Part, t: Tree, r: Part) {
    && t.Fork? && |Path(t, key)| <= |path|
    && 2 * Length(l) <= |path| - |Path(t, key)| + (if key > t.node.key then 0 else 1)
    && 2 * Length(r) <= |path| - |Path(t, key)| + (if key < t.node.key then 0 else 1)
    && forall n :: n in path ==> n in Path(t, key) || Near(l, n) || Near(r, n)
  }

  /** At the end of it the root and its children are left. */
  ghost predicate Ended(path: seq<Node>, l: Part, t: Tree, r: Part) {
    && t.Fork? && 2 * Length(l) <= |path| && 2 * Length(r) <= |path|
    && forall n :: n in path ==> n == t.node || n == Ptr(t.left) || n == Ptr(t.right) || Near(l, n) || Near(r, n)
  }

  lemma TrackedFirst(t: Tree, key: int)
    requires t.Fork?
    ensures Tracked(Path(t, key), key, Empty, t, Empty)
  {
  }

  /** The path goes no further. */
  lemma {:induction false} TrackedLast(path: seq<Node>, key: int, l: Part, t: Tree, r: Part)
    requires Tracked(path, key, l, t, r) && (key == t.node.key || AtEnd(t, key))
    ensures Ended(path, l, t, r)
  {
    assert Path(t, key) == [t.node];
  }

  /** SPLAY links the root to the right part: the path does not go on twice to the left. */
  lemma {:induction false} LinkedLeftNear(path: seq<Node>, key: int, l: Part, t: Tree, r: Part)
    requires Tracked(path, key, l, t, r) && key < t.node.key && t.left.Fork? && !(key < t.left.node.key)
    ensures Tracked(path, key, l, t.left, Chain(r, t.node, t.right))
  {
  }

  /** SPLAY rotates and links: two nodes of the path make one node of the part. */
  lemma {:induction false} TurnedLeftNear(path: seq<Node>, key: int, l: Part, t: Tree, r: Part)
    requires Tracked(path, key, l, t, r) && key < t.node.key && t.left.Fork? && key < t.left.node.key && t.left.left.Fork?
    ensures Tracked(path, key, l, t.left.left, Chain(r, t.left.node, Fork(t.left.right, t.node, t.right)))
  {
    assert Path(t, key) == [t.node] + ([t.left.node] + Path(t.left.left, key));
  }

  /** SPLAY rotates and stops. */
  lemma {:induction false} StoppedLeftNear(path: seq<Node>, key: int, l: Part, t: Tree, r: Part)
    requires Tracked(path, key, l, t, r) && key < t.node.key && t.left.Fork? && key < t.left.node.key && t.left.left.Nil?
    ensures Ended(path, l, Fork(t.left.left, t.left.node, Fork(t.left.right, t.node, t.right)), r)
  {
    assert Path(t, key) == [t.node] + ([t.left.node] + Path(t.left.left, key));
  }

  /** SPLAY links the root to the left part: the path does not go on twice to the right. */
  lemma {:induction false} LinkedRightNear(path: seq<Node>, key: int, l: Part, t: Tree, r: Part)
    requires Tracked(path, key, l, t, r) && key > t.node.key && t.right.Fork? && !(key > t.right.node.key)
    ensures Tracked(path, key, Chain(l, t.node, t.left), t.right, r)
  {
  }

  /** SPLAY rotates and links: two nodes of the path make one node of the part. */
  lemma {:induction false} TurnedRightNear(path: seq<Node>, key: int, l: Part, t: Tree, r: Part)
    requires Tracked(path, key, l, t, r) && key > t.node.key && t.right.Fork? && key > t.right.node.key && t.right.right.Fork?
    ensures Tracked(path, key, Chain(l, t.right.node, Fork(t.left, t.node, t.right.left)), t.right.right, r)
  {
    assert Path(t, key) == [t.node] + ([t.right.node] + Path(t.right.right, key));
  }

  /** SPLAY rotates and stops. */
  lemma {:induction false} StoppedRightNear(path: seq<Node>, key: int, l: Part, t: Tree, r: Part)
    requires Tracked(path, key, l, t, r) && key > t.node.key && t.right.Fork? && key > t.right.node.key && t.right.right.Nil?
    ensures Ended(path, l, Fork(Fork(t.left, t.node, t.right.left), t.right.node, t.right.right), r)
  {
    assert Path(t, key) == [t.node] + ([t.right.node] + Path(t.right.right, key));
  }

  /** The path to the key is at most half as deep as it was, and one. */
  ghost predicate Halved(path: seq<Node>, t: Tree) {
    forall n :: n in path ==> Within(t, n, |path| / 2 + 1)
  }

  lemma {:induction false} EndedHalved(path: seq<Node>, l: Part, t: Tree, r: Part)
    requires Ended(path, l, t, r)
    ensures Halved(path, Assembled(l, t, r))
  {
    var a, b, u := Close(L, l, t.left), Close(R, r, t.right), Assembled(l, t, r);
    forall n | n in path
      ensures Within(u, n, |path| / 2 + 1)
    {
      if n == t.node {
      } else if n == Ptr(t.left) {
        CloseWithin(L, l, t.left, n, 0);
        WithinMore(a, n, Length(l), |path| / 2);
      } else if n == Ptr(t.right) {
        CloseWithin(R, r, t.right, n, 0);
        WithinMore(b, n, Length(r), |path| / 2);
      } else if Near(l, n) {
        CloseNear(L, l, t.left, n);
        WithinMore(a, n, Length(l), |path| / 2);
      } else {
        CloseNear(R, r, t.right, n);
        WithinMore(b, n, Length(r), |path| / 2);
      }
    }
  }

  ghost function Height(t: Tree): nat {
    if t.Nil? then 0 else 1 + if Height(t.left) > Height(t.right) then Height(t.left) else Height(t.right)
  }

  lemma {:induction false} WithinMember(t: Tree, n: Node, d: nat)
    requires Within(t, n, d)
    ensures n in Inorder(t)
    decreases t
  {
    if n != t.node {
      if Within(t.left, n, d - 1) {
        WithinMember(t.left, n, d - 1);
      } else {
        WithinMember(t.right, n, d - 1);
      }
    }
  }

  /** Some element stands on the lowest level, and nowhere else. */
  lemma {:induction false} Lowest(t: Tree, lo: int, hi: int) returns (n: Node)
    requires Ordered(t, lo, hi) && t.Fork?
    ensures n in Inorder(t) && lo < n.key < hi && forall d: nat :: d + 1 < Height(t) ==> !Within(t, n, d)
    decreases t
  {
    n := t.node;
    if Height(t) > 1 {
      InorderAscending(t.left, lo, t.node.key);
      InorderAscending(t.right, t.node.key, hi);
      if Height(t.left) > Height(t.right) {
        n := Lowest(t.left, lo, t.node.key);
      } else {
        n := Lowest(t.right, t.node.key, hi);
      }
      forall d: nat | d + 1 < Height(t)
        ensures !Within(t, n, d)
      {
        if d > 0 && Within(t.left, n, d - 1) {
          WithinMember(t.left, n, d - 1);
        }
        if d > 0 && Within(t.right, n, d - 1) {
          WithinMember(t.right, n, d - 1);
        }
      }
    }
  }

  /** If the path had all the elements on it, the tree is half as high as the path was long, and two: splaying a spine for
      its end halves its height. */
  lemma HalvedHeight(path: seq<Node>, t: Tree, lo: int, hi: int)
    requires Ordered(t, lo, hi) && Halved(path, t) && forall n :: n in Inorder(t) ==> n in path
    ensures Height(t) <= |path| / 2 + 2
  {
    if t.Fork? {
      var n := Lowest(t, lo, hi);
      assert Within(t, n, |path| / 2 + 1);
    }
  }

  /** A root without a child on one side is the element at that end. */
  lemma {:induction false} EndsOf(t: Tree)
    requires t.Fork?
    ensures Inorder(t) != []
    ensures t.left.Nil? ==> Inorder(t)[0] == t.node
    ensures t.right.Nil? ==> Inorder(t)[|Inorder(t)| - 1] == t.node
  {
  }

  lemma MidMembers(l: Part, t: Tree, r: Part)
    requires t.Fork?
    ensures t.node in MidInorder(l, t, r)
    ensures t.left.Fork? ==> t.left.node in MidInorder(l, t, r)
    ensures t.right.Fork? ==> t.right.node in MidInorder(l, t, r)
  {
    assert t.left.Fork? ==> t.left.node in Inorder(t.left);
    assert t.right.Fork? ==> t.right.node in Inorder(t.right);
    assert forall n :: n in Inorder(t) ==> n in MidInorder(l, t, r);
  }

  lemma RotateInorder(a: Tree, x: Node, b: Tree, y: Node, c: Tree)
    ensures Inorder(Fork(a, x, Fork(b, y, c))) == Inorder(Fork(Fork(a, x, b), y, c))
  {
    assert Inorder(Fork(b, y, c)) == Inorder(b) + [y] + Inorder(c);
    assert Inorder(Fork(a, x, b)) == Inorder(a) + [x] + Inorder(b);
  }

  lemma LinkInorder(l: Part, t: Tree, r: Part)
    requires t.Fork?
    ensures MidInorder(l, t.left, Chain(r, t.node, t.right)) == MidInorder(l, t, r)
    ensures MidInorder(Chain(l, t.node, t.left), t.right, r) == MidInorder(l, t, r)
  {
    var p, q, a, b := PartInorder(L, l), PartInorder(R, r), Inorder(t.left), Inorder(t.right);
    assert PartInorder(L, Chain(l, t.node, t.left)) == p + (a + [t.node]);
    assert PartInorder(R, Chain(r, t.node, t.right)) == [t.node] + b + q;
    Regroup(p, a, t.node, b, q);
  }

  lemma Regroup(p: seq<Node>, a: seq<Node>, n: Node, b: seq<Node>, q: seq<Node>)
    ensures p + a + ([n] + b + q) == p + (a + [n] + b) + q == p + (a + [n]) + b + q
  {
  }

  /** The tree cannot go on towards `key`: the child on that side is missing. */
  ghost predicate AtEnd(t: Tree, key: int) {
    t.Fork? && ((key < t.node.key && t.left.Nil?) || (key > t.node.key && t.right.Nil?))
  }

  /** Hanging a tree of greater keys below a root without a right child. */
  lemma Joined(m: Store, m': Store, t: Tree, u: Tree, lo: int, mid: int, hi: int)
    requires Rep(m, t) && Ordered(t, lo, mid) && t.Fork? && t.right.Nil? && Rep(m, u) && Ordered(u, mid, hi)
    requires SameBut(m, m', t.node, null, null) && t.node in m' && m'[t.node] == m[t.node].(right := Ptr(u)) && mid < hi
    ensures Rep(m', t.(right := u)) && Ordered(t.(right := u), lo, hi)
  {
    RepKept(m, m', t.left, lo, t.node.key, t.node, null, null);
    RepKept(m, m', u, mid, hi, t.node, null, null);
    OrderedWider(u, mid, hi, t.node.key, hi);
  }

  /** Nodes with keys outside the bounds hold what they held. */
  ghost predicate SameOutside(m: Store, m': Store, lo: int, hi: int) {
    m.Keys == m'.Keys && forall n :: n in m && !(lo < n.key < hi) ==> m'[n] == m[n]
  }

  lemma RepOutside(m: Store, m': Store, t: Tree, lo: int, hi: int, lo': int, hi': int)
    requires Rep(m, t) && Ordered(t, lo, hi) && SameOutside(m, m', lo', hi') && hi' <= lo + 1
    ensures Rep(m', t)
  {
    if t.Fork? {
      RepOutside(m, m', t.left, lo, t.node.key, lo', hi');
      RepOutside(m, m', t.right, t.node.key, hi, lo', hi');
    }
  }

  /** Forgetting a node that is not in the tree. */
  lemma {:induction false} RepForget(m: Store, t: Tree, x: Node)
    requires Rep(m, t) && x !in Inorder(t)
    ensures Rep(m - {x}, t)
  {
    if t.Fork? {
      RepForget(m, t.left, x);
      RepForget(m, t.right, x);
    }
  }

  /** Keys known to lie below a tighter bound. */
  lemma OrderedBelow(t: Tree, lo: int, hi: int, hi': int)
    requires Ordered(t, lo, hi) && forall n :: n in Inorder(t) ==> n.key < hi'
    ensures Ordered(t, lo, hi')
  {
    if t.Fork? {
      assert t.node in Inorder(t);
      OrderedBelow(t.right, t.node.key, hi, hi');
    }
  }

  /** The splayed tree is cut left of its root, and x put on top. */
  lemma {:induction false} SplitLeft(m: Store, m': Store, t: Tree, x: Node, lo: int, hi: int)
    requires Rep(m, t) && Ordered(t, lo, hi) && Around(t, x.key, lo, hi) && lo < x.key < t.node.key
    requires SameBut(m, m', x, t.node, null) && t.node in m' && m'[t.node] == Row(null, Ptr(t.right))
    requires x in m' && m'[x] == Row(Ptr(t.left), t.node)
    ensures var t' := Fork(t.left, x, Fork(Nil, t.node, t.right));
            Rep(m', t') && Ordered(t', lo, hi) && Inorder(t') == Inorder(t.left) + [x] + ([t.node] + Inorder(t.right))
  {
    RepKept(m, m', t.left, lo, x.key, x, t.node, null);
    RepKept(m, m', t.right, t.node.key, hi, x, t.node, null);
    var u := Fork(Nil, t.node, t.right);
    assert Rep(m', Nil) && Rep(m', u);
    assert Ordered(Nil, x.key, t.node.key) && Ordered(u, x.key, hi);
    assert Inorder(u) == [] + [t.node] + Inorder(t.right);
  }

  /** The same right of its root. */
  lemma {:induction false} SplitRight(m: Store, m': Store, t: Tree, x: Node, lo: int, hi: int)
    requires Rep(m, t) && Ordered(t, lo, hi) && Around(t, x.key, lo, hi) && t.node.key < x.key < hi
    requires SameBut(m, m', x, t.node, null) && t.node in m' && m'[t.node] == Row(Ptr(t.left), null)
    requires x in m' && m'[x] == Row(t.node, Ptr(t.right))
    ensures var t' := Fork(Fork(t.left, t.node, Nil), x, t.right);
            Rep(m', t') && Ordered(t', lo, hi) && Inorder(t') == (Inorder(t.left) + [t.node]) + [x] + Inorder(t.right)
  {
    RepKept(m, m', t.left, lo, t.node.key, x, t.node, null);
    RepKept(m, m', t.right, x.key, hi, x, t.node, null);
    var u := Fork(t.left, t.node, Nil);
    assert Rep(m', Nil) && Rep(m', u);
    assert Ordered(Nil, t.node.key, x.key) && Ordered(u, lo, x.key);
    assert Inorder(u) == Inorder(t.left) + [t.node] + [];
  }

  /** The least element of the tree comes first. */
  lemma LeftmostFirst(t: Tree)
    requires t.Fork? && t.left.Fork?
    ensures Inorder(t.left) != [] && Inorder(t)[0] == Inorder(t.left)[0]
  {
  }
}
