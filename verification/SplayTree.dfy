/** SPLAY_HEAD and the operations SPLAY_PROTOTYPE and SPLAY_GENERATE make
    (_Include/tree.h:58-288), on heap nodes. Each statement macro is a method; what its
    writes mean is proved with the lemmas of SplayShape. */
module SplayTree {
  import opened KeySets
  import opened SplayShape

  class Head {
    var root: Node?
    // the nodes of the tree and what they hold
    ghost var cells: Store
    // the tree, and bounds on its keys
    ghost var shape: Tree
    ghost var low: int
    ghost var high: int

    ghost predicate Holds()
      reads this`cells, cells.Keys
    {
      forall n :: n in cells ==> cells[n] == Row(n.left, n.right)
    }

    /** The heap holds the search tree `t`, with keys between the bounds, at the root. */
    ghost predicate At(t: Tree, lo: int, hi: int)
      reads this`root, this`cells, cells.Keys
    {
      Holds() && root == Ptr(t) && Rep(cells, t) && Ordered(t, lo, hi)
    }

    ghost predicate Valid()
      reads this`root, this`cells, this`shape, this`low, this`high, cells.Keys
    {
      At(shape, low, high) && forall n :: n in cells ==> n in Elements()
    }

    /** The elements of the tree in order. */
    ghost function Elements(): seq<Node>
      reads this`shape
    {
      Inorder(shape)
    }

    /** SPLAY in the middle of its work: the parts hang off the dummy, `left` and `right` are their open ends. */
    ghost predicate Cut(dummy: Node, left: Node, right: Node, l: Part, t: Tree, r: Part, lo: int, hi: int)
      reads this`root, this`cells, cells.Keys, dummy
    {
      && Holds() && dummy !in cells && Mid(cells, l, t, r, lo, hi) && root == Ptr(t)
      && (if l.Chain? then left == l.node && dummy.right == First(l) else left == dummy)
      && (if r.Chain? then right == r.node && dummy.left == First(r) else right == dummy)
    }

    /** Brings `cells` up to date after writes to at most three nodes. */
    ghost method Sync(x: Node?, y: Node?, p: Node?)
      requires forall n :: n in cells && n != x && n != y && n != p ==> cells[n] == Row(n.left, n.right)
      modifies this`cells
      ensures Holds() && SameBut(old(cells), cells, x, y, p) && cells.Keys == old(cells.Keys)
    {
      cells := map n | n in cells :: Row(n.left, n.right);
    }

    /** SPLAY_ROTATE_RIGHT */
    method RotateRight(tmp: Node, dummy: Node, left: Node, right: Node,
                       ghost l: Part, ghost t: Tree, ghost r: Part, ghost lo: int, ghost hi: int)
      requires Cut(dummy, left, right, l, t, r, lo, hi) && t.Fork? && t.left.Fork? && t.left.node == tmp
      modifies this`root, this`cells, cells.Keys
      ensures Cut(dummy, left, right, l, Fork(t.left.left, tmp, Fork(t.left.right, t.node, t.right)), r, lo, hi)
      ensures SameOutside(old(cells), cells, lo, hi)
    {
      ghost var m, y := cells, t.node;
      TopRows(m, l, t, r, lo, hi);
      root.left := tmp.right;
      tmp.right := root;
      root := tmp;
      Sync(tmp, y, null);
      RotatedRight(m, cells, l, t, r, lo, hi);
    }

    /** SPLAY_LINKLEFT, with `right` for its tmp. */
    method LinkLeft(dummy: Node, left: Node, right: Node,
                    ghost l: Part, ghost t: Tree, ghost r: Part, ghost lo: int, ghost hi: int) returns (right': Node)
      requires Cut(dummy, left, right, l, t, r, lo, hi) && t.Fork?
      modifies this`root, this`cells, cells.Keys, dummy
      ensures Cut(dummy, left, right', l, t.left, Chain(r, t.node, t.right), lo, hi)
      ensures SameOutside(old(cells), cells, lo, hi)
    {
      ghost var m := cells;
      TopRows(m, l, t, r, lo, hi);
      right.left := root;
      right' := root;
      root := root.left;
      Sync(Last(r), null, null);
      LinkedLeft(m, cells, l, t, r, lo, hi);
    }

    /** SPLAY_ROTATE_LEFT */
    method RotateLeft(tmp: Node, dummy: Node, left: Node, right: Node,
                      ghost l: Part, ghost t: Tree, ghost r: Part, ghost lo: int, ghost hi: int)
      requires Cut(dummy, left, right, l, t, r, lo, hi) && t.Fork? && t.right.Fork? && t.right.node == tmp
      modifies this`root, this`cells, cells.Keys
      ensures Cut(dummy, left, right, l, Fork(Fork(t.left, t.node, t.right.left), tmp, t.right.right), r, lo, hi)
      ensures SameOutside(old(cells), cells, lo, hi)
    {
      ghost var m, y := cells, t.node;
      TopRows(m, l, t, r, lo, hi);
      root.right := tmp.left;
      tmp.left := root;
      root := tmp;
      Sync(tmp, y, null);
      RotatedLeft(m, cells, l, t, r, lo, hi);
    }

    /** SPLAY_LINKRIGHT, with `left` for its tmp. */
    method LinkRight(dummy: Node, left: Node, right: Node,
                     ghost l: Part, ghost t: Tree, ghost r: Part, ghost lo: int, ghost hi: int) returns (left': Node)
      requires Cut(dummy, left, right, l, t, r, lo, hi) && t.Fork?
      modifies this`root, this`cells, cells.Keys, dummy
      ensures Cut(dummy, left', right, Chain(l, t.node, t.left), t.right, r, lo, hi)
      ensures SameOutside(old(cells), cells, lo, hi)
    {
      ghost var m := cells;
      TopRows(m, l, t, r, lo, hi);
      left.right := root;
      left' := root;
      root := root.right;
      Sync(Last(l), null, null);
      LinkedRight(m, cells, l, t, r, lo, hi);
    }

    /** The writes of SPLAY_ASSEMBLE. An empty part ends at the dummy, which then hands on what was written to it. */
    method SetLinks(dummy: Node, left: Node, right: Node)
      requires root != null && root != dummy && root != left && root != right && (left == right ==> left == dummy)
      modifies root, left, right
      ensures root.left == old(if left == dummy then root.left else dummy.right)
      ensures root.right == old(if right == dummy then root.right else dummy.left)
      ensures left.right == old(root.left) && right.left == old(root.right)
      ensures left != right ==> left.left == old(left.left) && right.right == old(right.right)
    {
      left.right := root.left;
      right.left := root.right;
      root.left := dummy.right;
      root.right := dummy.left;
    }

    /** SPLAY_ASSEMBLE */
    method Assemble(dummy: Node, left: Node, right: Node,
                    ghost l: Part, ghost t: Tree, ghost r: Part, ghost lo: int, ghost hi: int)
      requires Cut(dummy, left, right, l, t, r, lo, hi) && t.Fork?
      modifies this`cells, cells.Keys, dummy
      ensures At(Assembled(l, t, r), lo, hi) && SameOutside(old(cells), cells, lo, hi)
    {
      ghost var m := cells;
      TopRows(m, l, t, r, lo, hi);
      SetLinks(dummy, left, right);
      Sync(Last(l), Last(r), t.node);
      Reassembled(m, cells, l, t, r, lo, hi);
    }

    // ---------- SPLAY and SPLAY_MINMAX ----------

    /** The comparison function handed to SPLAY_GENERATE, on keys. */
    static function Compare(a: int, b: int): int {
      if a < b then -1 else if a > b then 1 else 0
    }

    /** The branch for a key below the root's, past the test of the left child, tmp. */
    method GoLeft(tmp: Node, further: bool, dummy: Node, left: Node, right0: Node, ghost path: seq<Node>, ghost key: int,
                  ghost l: Part, ghost t0: Tree, ghost r0: Part, ghost lo: int, ghost hi: int)
        returns (stop: bool, right: Node, ghost t: Tree, ghost r: Part)
      requires Cut(dummy, left, right0, l, t0, r0, lo, hi) && t0.Fork? && t0.left.Fork? && t0.left.node == tmp
      requires Edge(l, lo) < key < Edge(r0, hi) && key < t0.node.key && (further <==> key < tmp.key)
      requires Tracked(path, key, l, t0, r0)
      modifies this`root, this`cells, cells.Keys, dummy
      ensures Cut(dummy, left, right, l, t, r, lo, hi) && t.Fork? && MidInorder(l, t, r) == MidInorder(l, t0, r0)
      ensures Edge(l, lo) < key < Edge(r, hi) && SameOutside(old(cells), cells, lo, hi)
      ensures if stop then key < t.node.key && t.left.Nil? && Ended(path, l, t, r)
              else |Inorder(t)| < |Inorder(t0)| && Tracked(path, key, l, t, r)
    {
      stop, right, t, r := false, right0, t0, r0;
      if further {
        RotateRight(tmp, dummy, left, right, l, t, r, lo, hi);
        RotateInorder(t.left.left, tmp, t.left.right, t.node, t.right);
        t := Fork(t.left.left, tmp, Fork(t.left.right, t.node, t.right));
        TopRows(cells, l, t, r, lo, hi);
        if root.left == null {
          StoppedLeftNear(path, key, l, t0, r);
          stop := true;
          return;
        }
        TurnedLeftNear(path, key, l, t0, r);
      } else {
        LinkedLeftNear(path, key, l, t0, r);
      }
      LinkInorder(l, t, r);
      right := LinkLeft(dummy, left, right, l, t, r, lo, hi);
      t, r := t.left, Chain(r, t.node, t.right);
    }

    /** The branch for a key above the root's, past the test of the right child, tmp. */
    method GoRight(tmp: Node, further: bool, dummy: Node, left0: Node, right: Node, ghost path: seq<Node>, ghost key: int,
                   ghost l0: Part, ghost t0: Tree, ghost r: Part, ghost lo: int, ghost hi: int)
        returns (stop: bool, left: Node, ghost l: Part, ghost t: Tree)
      requires Cut(dummy, left0, right, l0, t0, r, lo, hi) && t0.Fork? && t0.right.Fork? && t0.right.node == tmp
      requires Edge(l0, lo) < key < Edge(r, hi) && key > t0.node.key && (further <==> key > tmp.key)
      requires Tracked(path, key, l0, t0, r)
      modifies this`root, this`cells, cells.Keys, dummy
      ensures Cut(dummy, left, right, l, t, r, lo, hi) && t.Fork? && MidInorder(l, t, r) == MidInorder(l0, t0, r)
      ensures Edge(l, lo) < key < Edge(r, hi) && SameOutside(old(cells), cells, lo, hi)
      ensures if stop then key > t.node.key && t.right.Nil? && Ended(path, l, t, r)
              else |Inorder(t)| < |Inorder(t0)| && Tracked(path, key, l, t, r)
    {
      stop, left, l, t := false, left0, l0, t0;
      if further {
        RotateLeft(tmp, dummy, left, right, l, t, r, lo, hi);
        RotateInorder(t.left, t.node, t.right.left, tmp, t.right.right);
        t := Fork(Fork(t.left, t.node, t.right.left), tmp, t.right.right);
        TopRows(cells, l, t, r, lo, hi);
        if root.right == null {
          StoppedRightNear(path, key, l, t0, r);
          stop := true;
          return;
        }
        TurnedRightNear(path, key, l, t0, r);
      } else {
        LinkedRightNear(path, key, l, t0, r);
      }
      LinkInorder(l, t, r);
      left := LinkRight(dummy, left, right, l, t, r, lo, hi);
      l, t := Chain(l, t.node, t.left), t.right;
    }

    /** One turn of SPLAY's loop; `stop` stands for the breaks. */
    method Turn(elm: Node, comp: int, node: Node, left0: Node, right0: Node, ghost path: seq<Node>,
                ghost l0: Part, ghost t0: Tree, ghost r0: Part, ghost lo: int, ghost hi: int)
        returns (stop: bool, left: Node, right: Node, ghost l: Part, ghost t: Tree, ghost r: Part)
      requires Cut(node, left0, right0, l0, t0, r0, lo, hi) && t0.Fork? && Edge(l0, lo) < elm.key < Edge(r0, hi)
      requires comp == Compare(elm.key, t0.node.key) != 0 && Tracked(path, elm.key, l0, t0, r0)
      modifies this`root, this`cells, cells.Keys, node
      ensures Cut(node, left, right, l, t, r, lo, hi) && t.Fork? && MidInorder(l, t, r) == MidInorder(l0, t0, r0)
      ensures Edge(l, lo) < elm.key < Edge(r, hi) && SameOutside(old(cells), cells, lo, hi)
      ensures if stop then AtEnd(t, elm.key) && Ended(path, l, t, r)
              else |Inorder(t)| < |Inorder(t0)| && Tracked(path, elm.key, l, t, r)
    {
      stop, left, right, l, t, r := true, left0, right0, l0, t0, r0;
      TopRows(cells, l, t, r, lo, hi);
      if comp < 0 {
        var tmp := root.left;
        if tmp == null {
          TrackedLast(path, elm.key, l, t, r);
          return;
        }
        stop, right, t, r := GoLeft(tmp, Compare(elm.key, tmp.key) < 0, node, left, right, path, elm.key, l, t, r, lo, hi);
      } else if comp > 0 {
        var tmp := root.right;
        if tmp == null {
          TrackedLast(path, elm.key, l, t, r);
          return;
        }
        stop, left, l, t := GoRight(tmp, Compare(elm.key, tmp.key) > 0, node, left, right, path, elm.key, l, t, r, lo, hi);
      }
    }

    /** The assembly that ends SPLAY and SPLAY_MINMAX. */
    method Finish(node: Node, left: Node, right: Node, ghost path: seq<Node>, ghost key: int,
                  ghost l: Part, ghost t0: Tree, ghost r: Part, ghost lo: int, ghost hi: int) returns (ghost t: Tree)
      requires Cut(node, left, right, l, t0, r, lo, hi) && t0.Fork? && Edge(l, lo) < key < Edge(r, hi)
      requires (key == t0.node.key || AtEnd(t0, key)) && Ended(path, l, t0, r)
      modifies this`cells, cells.Keys, node
      ensures At(t, lo, hi) && Around(t, key, lo, hi) && Inorder(t) == MidInorder(l, t0, r) && Halved(path, t)
      ensures SameOutside(old(cells), cells, lo, hi)
    {
      AssembledAround(l, t0, r, lo, hi, key);
      AssembledInorder(l, t0, r);
      EndedHalved(path, l, t0, r);
      Assemble(node, left, right, l, t0, r, lo, hi);
      t := Assembled(l, t0, r);
    }

    /** Brings the element with the key of elm, or a neighbour of where it would be, to the root. The nodes on the way to
        it end up at most half as deep as the way was long, and one deeper. */
    method Splay(elm: Node, ghost t0: Tree, ghost lo: int, ghost hi: int) returns (ghost t: Tree)
      requires At(t0, lo, hi) && t0.Fork? && lo < elm.key < hi
      modifies this`root, this`cells, cells.Keys
      ensures At(t, lo, hi) && Around(t, elm.key, lo, hi) && Inorder(t) == Inorder(t0)
      ensures SameOutside(old(cells), cells, lo, hi)
      ensures Halved(Path(t0, elm.key), t)
    {
      var node := new Node(0);
      var left, right, stop := node, node, false;
      ghost var l, r, path := Empty, Empty, Path(t0, elm.key);
      t := t0;
      TrackedFirst(t0, elm.key);
      var comp := Compare(elm.key, root.key);
      while comp != 0
        invariant Cut(node, left, right, l, t, r, lo, hi) && t.Fork? && MidInorder(l, t, r) == Inorder(t0)
        invariant Edge(l, lo) < elm.key < Edge(r, hi) && comp == Compare(elm.key, t.node.key)
        invariant SameOutside(old(cells), cells, lo, hi) && Tracked(path, elm.key, l, t, r)
        decreases |Inorder(t)|
      {
        stop, left, right, l, t, r := Turn(elm, comp, node, left, right, path, l, t, r, lo, hi);
        if stop {
          break;
        }
        comp := Compare(elm.key, root.key);
      }
      if !stop {
        TrackedLast(path, elm.key, l, t, r);
      }
      t := Finish(node, left, right, path, elm.key, l, t, r, lo, hi);
    }

    /** One turn of SPLAY_MINMAX's loop. No element has the key `key`: it stands for minus or plus infinity. */
    method TurnMinMax(val: int, node: Node, left0: Node, right0: Node, ghost path: seq<Node>, ghost key: int,
                      ghost l0: Part, ghost t0: Tree, ghost r0: Part, ghost lo: int, ghost hi: int)
        returns (stop: bool, left: Node, right: Node, ghost l: Part, ghost t: Tree, ghost r: Part)
      requires Cut(node, left0, right0, l0, t0, r0, lo, hi) && t0.Fork? && Edge(l0, lo) < key < Edge(r0, hi) && val != 0
      requires forall n :: n in MidInorder(l0, t0, r0) ==> if val < 0 then key < n.key else n.key < key
      requires Tracked(path, key, l0, t0, r0)
      modifies this`root, this`cells, cells.Keys, node
      ensures Cut(node, left, right, l, t, r, lo, hi) && t.Fork? && MidInorder(l, t, r) == MidInorder(l0, t0, r0)
      ensures Edge(l, lo) < key < Edge(r, hi) && SameOutside(old(cells), cells, lo, hi)
      ensures if stop then AtEnd(t, key) && Ended(path, l, t, r)
              else |Inorder(t)| < |Inorder(t0)| && Tracked(path, key, l, t, r)
    {
      stop, left, right, l, t, r := true, left0, right0, l0, t0, r0;
      TopRows(cells, l, t, r, lo, hi);
      MidMembers(l, t, r);
      if val < 0 {
        var tmp := root.left;
        if tmp == null {
          TrackedLast(path, key, l, t, r);
          return;
        }
        stop, right, t, r := GoLeft(tmp, val < 0, node, left, right, path, key, l, t, r, lo, hi);
      } else {
        var tmp := root.right;
        if tmp == null {
          TrackedLast(path, key, l, t, r);
          return;
        }
        stop, left, l, t := GoRight(tmp, val > 0, node, left, right, path, key, l, t, r, lo, hi);
      }
    }

    /** The loop of SPLAY_MINMAX. */
    method SplayEnd(val: int, ghost key: int, ghost t0: Tree, ghost lo: int, ghost hi: int) returns (ghost t: Tree)
      requires At(t0, lo, hi) && t0.Fork? && lo < key < hi && val != 0
      requires forall n :: n in Inorder(t0) ==> if val < 0 then key < n.key else n.key < key
      modifies this`root, this`cells, cells.Keys
      ensures At(t, lo, hi) && Around(t, key, lo, hi) && Inorder(t) == Inorder(t0) && cells.Keys == old(cells.Keys)
      ensures Halved(Path(t0, key), t)
    {
      var node := new Node(0);
      var left, right, stop := node, node, false;
      ghost var l, r, path := Empty, Empty, Path(t0, key);
      t := t0;
      TrackedFirst(t0, key);
      while !stop
        invariant Cut(node, left, right, l, t, r, lo, hi) && t.Fork? && MidInorder(l, t, r) == Inorder(t0)
        invariant Edge(l, lo) < key < Edge(r, hi) && cells.Keys == old(cells.Keys)
        invariant if stop then AtEnd(t, key) && Ended(path, l, t, r) else Tracked(path, key, l, t, r)
        decreases !stop, |Inorder(t)|
      {
        stop, left, right, l, t, r := TurnMinMax(val, node, left, right, path, key, l, t, r, lo, hi);
      }
      t := Finish(node, left, right, path, key, l, t, r, lo, hi);
    }

    /** Brings the least element (val < 0) or the greatest (val > 0) to the root. */
    method SplayMinMax(val: int, ghost t0: Tree, ghost lo: int, ghost hi: int) returns (ghost t: Tree)
      requires At(t0, lo, hi) && t0.Fork? && val != 0
      modifies this`root, this`cells, cells.Keys
      ensures At(t, lo - 1, hi + 1) && t.Fork? && Inorder(t) == Inorder(t0) && cells.Keys == old(cells.Keys)
      ensures if val < 0 then t.left.Nil? else t.right.Nil?
      ensures Halved(Spine(if val < 0 then L else R, t0), t)
    {
      ghost var key := if val < 0 then lo else hi;
      InorderAscending(t0, lo, hi);
      OrderedWider(t0, lo, hi, lo - 1, hi + 1);
      t := SplayEnd(val, key, t0, lo - 1, hi + 1);
      AroundEnd(t, key, lo - 1, hi + 1);
      SpinePath(if val < 0 then L else R, t0, key);
    }

    // ---------- the operations ----------

    /** SPLAY on the whole tree; the bounds make room for the key. */
    method SplayAll(elm: Node)
      requires Valid() && root != null
      modifies this, cells.Keys
      ensures Valid() && Elements() == old(Elements()) && cells.Keys == old(cells.Keys)
      ensures root == Ptr(shape) && Around(shape, elm.key, low, high) && low < elm.key < high
    {
      ghost var lo, hi := if low < elm.key then low else elm.key - 1, if elm.key < high then high else elm.key + 1;
      OrderedWider(shape, low, high, lo, hi);
      ghost var t := Splay(elm, shape, lo, hi);
      shape, low, high := t, lo, hi;
    }

    /** Finds the element with the key of elm; it is at the root then. */
    method Find(elm: Node) returns (r: Node?)
      requires Valid()
      modifies this, cells.Keys
      ensures Valid() && Elements() == old(Elements()) && cells.Keys == old(cells.Keys)
      ensures r != null ==> r in Elements() && r.key == elm.key && r == root
      ensures r == null ==> forall n :: n in Elements() ==> n.key != elm.key
    {
      if root == null {
        return null;
      }
      SplayAll(elm);
      if Compare(elm.key, root.key) == 0 {
        assert shape.node in Inorder(shape);
        return root;
      }
      AroundMisses(shape, elm.key, low, high);
      return null;
    }

    /** Adds elm and leaves it at the root, or returns the element with its key. */
    method Insert(elm: Node) returns (dup: Node?, ghost p: seq<Node>, ghost q: seq<Node>)
      requires Valid()
      modifies this, cells.Keys, elm
      ensures Valid()
      ensures dup != null ==> dup in Elements() && dup.key == elm.key && Elements() == old(Elements()) && cells.Keys == old(cells.Keys)
      ensures dup == null ==> old(Elements()) == p + q && Elements() == p + [elm] + q && root == elm
      ensures dup == null ==> elm !in old(cells.Keys) && cells.Keys == old(cells.Keys) + {elm}
    {
      p, q := [], [];
      if root == null {
        elm.left, elm.right := null, null;
        cells, shape, low, high := map[elm := Row(null, null)], Fork(Nil, elm, Nil), elm.key - 1, elm.key + 1;
      } else {
        SplayAll(elm);
        var comp := Compare(elm.key, root.key);
        if comp == 0 {
          assert shape.node in Inorder(shape);
          return root, p, q;
        }
        if comp < 0 {
          p, q := SplitBefore(elm);
        } else {
          p, q := SplitAfter(elm);
        }
      }
      root := elm;
      return null, p, q;
    }

    /** elm belongs before the root of the splayed tree, after everything left of it. */
    method SplitBefore(elm: Node) returns (ghost p: seq<Node>, ghost q: seq<Node>)
      requires Valid() && root != null && root == Ptr(shape) && Around(shape, elm.key, low, high) && low < elm.key < high
      requires elm.key < root.key
      modifies this`cells, this`shape, cells.Keys, elm
      ensures Holds() && Rep(cells, shape) && Ordered(shape, low, high) && shape.Fork? && shape.node == elm
      ensures old(Elements()) == p + q && Elements() == p + [elm] + q && forall n :: n in cells ==> n in Elements()
      ensures elm !in old(cells.Keys) && cells.Keys == old(cells.Keys) + {elm}
    {
      ghost var m, t, n := cells, shape, shape.node;
      AroundMisses(t, elm.key, low, high);
      elm.left := root.left;
      elm.right := root;
      root.left := null;
      cells := cells[elm := Row(elm.left, elm.right)];
      Sync(n, null, null);
      SplitLeft(m, cells, t, elm, low, high);
      shape := Fork(t.left, elm, Fork(Nil, n, t.right));
      p, q := Inorder(t.left), [n] + Inorder(t.right);
      Associate(p, [n], Inorder(t.right));
    }

    /** elm belongs after the root of the splayed tree, before everything right of it. */
    method SplitAfter(elm: Node) returns (ghost p: seq<Node>, ghost q: seq<Node>)
      requires Valid() && root != null && root == Ptr(shape) && Around(shape, elm.key, low, high) && low < elm.key < high
      requires elm.key > root.key
      modifies this`cells, this`shape, cells.Keys, elm
      ensures Holds() && Rep(cells, shape) && Ordered(shape, low, high) && shape.Fork? && shape.node == elm
      ensures old(Elements()) == p + q && Elements() == p + [elm] + q && forall n :: n in cells ==> n in Elements()
      ensures elm !in old(cells.Keys) && cells.Keys == old(cells.Keys) + {elm}
    {
      ghost var m, t, n := cells, shape, shape.node;
      AroundMisses(t, elm.key, low, high);
      elm.right := root.right;
      elm.left := root;
      root.right := null;
      cells := cells[elm := Row(elm.left, elm.right)];
      Sync(n, null, null);
      SplitRight(m, cells, t, elm, low, high);
      shape := Fork(Fork(t.left, n, Nil), elm, t.right);
      p, q := Inorder(t.left) + [n], Inorder(t.right);
    }

    /** Removes the element with the key of elm and returns elm, or null if there is none. */
    method Remove(elm: Node) returns (r: Node?, ghost p: seq<Node>, ghost x: Node?, ghost q: seq<Node>)
      requires Valid()
      modifies this, cells.Keys
      ensures Valid() && (r == elm || r == null) && (r == null <==> x == null)
      ensures r != null ==> x.key == elm.key && old(Elements()) == p + [x] + q && Elements() == p + q
      ensures r != null ==> cells.Keys == old(cells.Keys) - {x}
      ensures r == null ==> Elements() == old(Elements()) && cells.Keys == old(cells.Keys)
      ensures r == null ==> forall n :: n in Elements() ==> n.key != elm.key
    {
      r, p, x, q := null, [], null, [];
      if root != null {
        SplayAll(elm);
        if Compare(elm.key, root.key) == 0 {
          p, x, q := RemoveRoot(elm);
          r := elm;
        } else {
          AroundMisses(shape, elm.key, low, high);
        }
      }
    }

    /** The root, which has the key of elm, goes. */
    method RemoveRoot(elm: Node) returns (ghost p: seq<Node>, ghost x: Node, ghost q: seq<Node>)
      requires Valid() && shape.Fork? && shape.node.key == elm.key
      modifies this, cells.Keys
      ensures Valid() && x.key == elm.key && old(Elements()) == p + [x] + q && Elements() == p + q
      ensures cells.Keys == old(cells.Keys) - {x}
    {
      ghost var t := shape;
      p, x, q := Inorder(t.left), t.node, Inorder(t.right);
      InorderAscending(t, low, high);
      if root.left == null {
        root := root.right;
        OrderedWider(t.right, t.node.key, high, low, high);
        t := t.right;
      } else {
        t := JoinParts(elm, t, low, high);
      }
      Forget(t, x, p, q);
    }

    /** The left part is splayed for the same key again, so its root has no right child; the right part goes there. */
    method JoinParts(elm: Node, ghost t: Tree, ghost lo: int, ghost hi: int) returns (ghost u: Tree)
      requires At(t, lo, hi) && t.Fork? && t.left.Fork? && t.node.key == elm.key
      modifies this`root, this`cells, cells.Keys
      ensures At(u, lo, hi) && Inorder(u) == Inorder(t.left) + Inorder(t.right) && cells.Keys == old(cells.Keys)
    {
      var tmp := root.right;
      root := root.left;
      u := Resplay(elm, t.left, t.right, lo, hi);
      u := HangRight(tmp, u, t.right, lo, elm.key, hi);
    }

    method Resplay(elm: Node, ghost t: Tree, ghost rest: Tree, ghost lo: int, ghost hi: int) returns (ghost u: Tree)
      requires At(t, lo, elm.key) && t.Fork? && lo < elm.key && Rep(cells, rest) && Ordered(rest, elm.key, hi)
      modifies this`root, this`cells, cells.Keys
      ensures At(u, lo, elm.key) && u.Fork? && u.right.Nil? && Inorder(u) == Inorder(t)
      ensures Rep(cells, rest) && cells.Keys == old(cells.Keys)
    {
      ghost var m, key := cells, elm.key;
      OrderedWider(t, lo, key, lo, key + 1);
      InorderAscending(t, lo, key);
      u := Splay(elm, t, lo, key + 1);
      RepOutside(m, cells, rest, key, hi, lo, key + 1);
      OrderedBelow(u, lo, key + 1, key);
    }

    method HangRight(tmp: Node?, ghost t: Tree, ghost rest: Tree, ghost lo: int, ghost mid: int, ghost hi: int)
        returns (ghost u: Tree)
      requires At(t, lo, mid) && t.Fork? && t.right.Nil? && Rep(cells, rest) && Ordered(rest, mid, hi) && mid < hi
      requires Ptr(rest) == tmp
      modifies this`cells, cells.Keys
      ensures At(u, lo, hi) && Inorder(u) == Inorder(t) + Inorder(rest) && cells.Keys == old(cells.Keys)
    {
      ghost var m := cells;
      root.right := tmp;
      Sync(t.node, null, null);
      Joined(m, cells, t, rest, lo, mid, hi);
      u := t.(right := rest);
    }

    /** The tree is `t` now; the removed element is no longer among the cells. */
    ghost method Forget(t: Tree, x: Node, p: seq<Node>, q: seq<Node>)
      requires At(t, low, high) && Inorder(t) == p + q && Ascending(p + [x] + q)
      requires forall n :: n in cells ==> n in p + [x] + q
      modifies this`cells, this`shape
      ensures Valid() && Elements() == p + q && cells.Keys == old(cells.Keys) - {x}
    {
      SortedApart(p, x, q, Key);
      RepForget(cells, t, x);
      shape := t;
      cells := cells - {x};
    }

    method Leftmost(elm: Node, ghost t0: Tree) returns (r: Node)
      requires Holds() && Rep(cells, t0) && t0.Fork? && t0.node == elm
      ensures r == Inorder(t0)[0]
    {
      ghost var t := t0;
      r := elm;
      while r.left != null
        invariant Rep(cells, t) && t.Fork? && t.node == r && Inorder(t)[0] == Inorder(t0)[0]
        decreases t
      {
        LeftmostFirst(t);
        r := r.left;
        t := t.left;
      }
    }

    /** The element after elm, or null after the last; `i` is the position of elm. */
    method Next(elm: Node, ghost i: nat) returns (r: Node?)
      requires Valid() && i < |Elements()| && Elements()[i] == elm
      modifies this, cells.Keys
      ensures Valid() && Elements() == old(Elements()) && cells.Keys == old(cells.Keys)
      ensures r == if i + 1 < |Elements()| then Elements()[i + 1] else null
    {
      SplayAll(elm);
      AroundFinds(shape, elm, low, high);
      InorderAscending(shape, low, high);
      OnePosition(Elements(), Key, |Inorder(shape.left)|, i);
      if elm.right != null {
        r := Leftmost(elm.right, shape.right);
      } else {
        r := null;
      }
    }

    /** SPLAY_MIN for val < 0, SPLAY_MAX for val > 0: that element, which is at the root then. */
    method MinMax(val: int) returns (r: Node?)
      requires Valid() && val != 0
      modifies this, cells.Keys
      ensures Valid() && Elements() == old(Elements()) && cells.Keys == old(cells.Keys) && r == root
      ensures r == null <==> Elements() == []
      ensures r != null ==> r == Elements()[if val < 0 then 0 else |Elements()| - 1]
    {
      if root == null {
        return null;
      }
      ghost var t := SplayMinMax(val, shape, low, high);
      EndsOf(t);
      shape, low, high := t, low - 1, high + 1;
      return root;
    }

    /** SPLAY_FOREACH: the elements it visits, in the order it visits them, while every step reshapes the tree. */
    method Foreach() returns (visited: seq<Node>)
      requires Valid()
      modifies this, cells.Keys
      ensures Valid() && Elements() == old(Elements()) && visited == Elements()
    {
      ghost var s := Elements();
      visited := [];
      var x := MinMax(-1);
      while x != null
        invariant Valid() && Elements() == s && cells.Keys == old(cells.Keys)
        invariant |visited| <= |s| && forall i :: 0 <= i < |visited| ==> visited[i] == s[i]
        invariant x == if |visited| < |s| then s[|visited|] else null
        decreases |s| - |visited|
      {
        visited := visited + [x];
        x := Next(x, |visited| - 1);
      }
    }

    /** SPLAY_INIT: an empty tree. */
    constructor ()
      ensures Valid() && Elements() == [] && cells.Keys == {}
    {
      root := null;
      cells, shape, low, high := map[], Nil, 0, 0;
    }
  }
}
