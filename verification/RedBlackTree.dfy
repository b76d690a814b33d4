/** RB_HEAD and the operations RB_GENERATE makes (_Include/tree.h:289-675), on heap
    nodes. The writes are proved on fields alone (RotateLeft, RotateRight, Relink);
    what they mean for the tree is proved once per kind of write with the lemmas of
    RedBlackStore. Arguments marked ghost say where in the tree the operation stands. */
module RedBlackTree {
  import opened Powers
  import opened KeySets
  import opened RedBlackShape
  import opened RedBlackStore

  class Head {
    var root: Node?
    // the nodes of the tree and what they hold
    ghost var cells: Store

    // the tree, and bounds on its keys
    ghost var shape: Tree
    ghost var lo: int
    ghost var hi: int

    // the rotations and the comparisons made so far
    ghost var rotations: nat
    ghost var comparisons: nat

    /** A red-black search tree with consistent parent and child links. */
    ghost predicate Valid()
      reads this`root, this`cells, this`shape, this`lo, this`hi, cells.Keys
    {
      At(Top(lo, hi), shape) && RedBlack(shape) && forall n :: n in cells ==> n in Elements()
    }

    /** The elements of the tree in order. */
    ghost function Elements(): seq<Node>
      reads this`shape
    {
      Inorder(shape)
    }

    ghost predicate Holds()
      reads this`cells, cells.Keys
    {
      forall n :: n in cells ==> cells[n] == Row(n.left, n.right, n.parent, n.color)
    }

    /** The heap holds the tree Plug(k, t), seen from the hole of `k`. */
    ghost predicate At(k: Ctx, t: Tree)
      reads this`root, this`cells, cells.Keys
    {
      Holds() && Zip(cells, root, k, t)
    }

    /** Brings `cells` up to date after writes to at most four nodes. */
    ghost method Sync(x: Node?, y: Node?, p: Node?, q: Node?)
      requires forall n :: n in cells && n != x && n != y && n != p && n != q ==>
        cells[n] == Row(n.left, n.right, n.parent, n.color)
      modifies this`cells
      ensures Holds() && SameBut(old(cells), cells, x, y, p, q) && cells.Keys == old(cells.Keys)
    {
      cells := map n | n in cells :: Row(n.left, n.right, n.parent, n.color);
    }

    /** The link from `parent` (or from the head) that led to `elm` now leads to `p`. */
    method Relink(parent: Node?, elm: Node?, p: Node?)
      modifies this`root, if parent != null then {parent} else {}
      ensures parent == null ==> root == p
      ensures parent != null ==> root == old(root) && parent.parent == old(parent.parent) && parent.color == old(parent.color)
      ensures parent != null && old(parent.left) == elm ==> parent.left == p && parent.right == old(parent.right)
      ensures parent != null && old(parent.left) != elm ==> parent.left == old(parent.left) && parent.right == p
    {
      if parent != null {
        if parent.left == elm {
          parent.left := p;
        } else {
          parent.right := p;
        }
      } else {
        root := p;
      }
    }

    method RotateLeft(elm: Node, ghost right: Node, ghost inner: Node?, ghost up: Node?)
      requires elm.right == right && right.left == inner && elm.parent == up
      requires elm != right && elm != inner && right != inner && up != elm && up != right && (up != null ==> up != inner)
      modifies this`root, this`rotations, elm, right, if inner != null then {inner} else {}, if up != null then {up} else {}
      ensures elm.left == old(elm.left) && elm.right == inner && elm.parent == right && elm.color == old(elm.color)
      ensures right.left == elm && right.right == old(right.right) && right.parent == up && right.color == old(right.color)
      ensures inner != null ==> inner.left == old(inner.left) && inner.right == old(inner.right) &&
                                inner.parent == elm && inner.color == old(inner.color)
      ensures rotations == old(rotations) + 1
      ensures up == null ==> root == right
      ensures up != null ==> root == old(root) && up.parent == old(up.parent) && up.color == old(up.color)
      ensures up != null && old(up.left) == elm ==> up.left == right && up.right == old(up.right)
      ensures up != null && old(up.left) != elm ==> up.left == old(up.left) && up.right == right
    {
      var tmp := elm.right;
      elm.right := tmp.left;
      if tmp.left != null {
        tmp.left.parent := elm;
      }
      tmp.parent := elm.parent;
      Relink(elm.parent, elm, tmp);
      tmp.left := elm;
      elm.parent := tmp;
      rotations := rotations + 1;
    }

    method RotateRight(elm: Node, ghost left: Node, ghost inner: Node?, ghost up: Node?)
      requires elm.left == left && left.right == inner && elm.parent == up
      requires elm != left && elm != inner && left != inner && up != elm && up != left && (up != null ==> up != inner)
      modifies this`root, this`rotations, elm, left, if inner != null then {inner} else {}, if up != null then {up} else {}
      ensures elm.right == old(elm.right) && elm.left == inner && elm.parent == left && elm.color == old(elm.color)
      ensures left.right == elm && left.left == old(left.left) && left.parent == up && left.color == old(left.color)
      ensures inner != null ==> inner.left == old(inner.left) && inner.right == old(inner.right) &&
                                inner.parent == elm && inner.color == old(inner.color)
      ensures rotations == old(rotations) + 1
      ensures up == null ==> root == left
      ensures up != null ==> root == old(root) && up.parent == old(up.parent) && up.color == old(up.color)
      ensures up != null && old(up.left) == elm ==> up.left == left && up.right == old(up.right)
      ensures up != null && old(up.left) != elm ==> up.left == old(up.left) && up.right == left
    {
      var tmp := elm.left;
      elm.left := tmp.right;
      if tmp.right != null {
        tmp.right.parent := elm;
      }
      tmp.parent := elm.parent;
      Relink(elm.parent, elm, tmp);
      tmp.right := elm;
      elm.parent := tmp;
      rotations := rotations + 1;
    }

    /** RB_ROTATE_LEFT at the fork in focus. */
    method TurnLeft(elm: Node, ghost k: Ctx, ghost t: Tree)
      requires At(k, t) && t.Fork? && t.node == elm && t.right.Fork?
      modifies this`root, this`cells, this`rotations, cells.Keys
      ensures At(k, Fork(Fork(t.left, t.color, elm, t.right.left), t.right.color, t.right.node, t.right.right))
      ensures cells.Keys == old(cells.Keys) && rotations == old(rotations) + 1
    {
      ghost var u, m, r := t.right, cells, root;
      ghost var b, par := u.left, Par(k);
      ghost var q := Ptr(b);
      RotateRows(L, m, r, k, t.left, t.color, elm, b, u.color, u.node, u.right);
      RotateLeft(elm, u.node, q, par);
      Sync(elm, u.node, q, par);
      Rotated(L, m, cells, r, root, k, t.left, t.color, elm, b, u.color, u.node, u.right);
    }

    /** RB_ROTATE_RIGHT at the fork in focus. */
    method TurnRight(elm: Node, ghost k: Ctx, ghost t: Tree)
      requires At(k, t) && t.Fork? && t.node == elm && t.left.Fork?
      modifies this`root, this`cells, this`rotations, cells.Keys
      ensures At(k, Fork(t.left.left, t.left.color, t.left.node, Fork(t.left.right, t.color, elm, t.right)))
      ensures cells.Keys == old(cells.Keys) && rotations == old(rotations) + 1
    {
      ghost var u, m, r := t.left, cells, root;
      ghost var b, par := u.right, Par(k);
      ghost var q := Ptr(b);
      RotateRows(R, m, r, k, t.right, t.color, elm, b, u.color, u.node, u.left);
      RotateRight(elm, u.node, q, par);
      Sync(elm, u.node, q, par);
      Rotated(R, m, cells, r, root, k, t.right, t.color, elm, b, u.color, u.node, u.left);
    }

    /** RB_COLOR(elm) = c at the fork in focus. */
    method Paint(elm: Node, c: Color, ghost k: Ctx, ghost t: Tree)
      requires At(k, t) && t.Fork? && t.node == elm
      modifies this`cells, cells.Keys
      ensures At(k, t.(color := c)) && cells.Keys == old(cells.Keys)
    {
      ghost var m := cells;
      Rows(m, root, k, t);
      elm.color := c;
      Sync(elm, null, null, null);
      Painted(m, cells, root, k, t, c);
    }

    /** What the fields of the nodes at a focus are. */
    lemma Look(k: Ctx, t: Tree)
      requires At(k, t)
      ensures t.Fork? ==> t.node in cells && t.node.left == Ptr(t.left) && t.node.right == Ptr(t.right) &&
                          t.node.parent == Par(k) && t.node.color == t.color
      ensures k.Top? ==> root == Ptr(t)
      ensures k.In? ==> k.node in cells && k.node.parent == Par(k.up) && k.node.color == k.color
      ensures k.In? && k.side.L? ==> k.node.left == Ptr(t) && k.node.right == Ptr(k.sibling)
      ensures k.In? && k.side.R? ==> k.node.right == Ptr(t) && k.node.left == Ptr(k.sibling)
      ensures k.In? && t.Fork? ==> t.node != Ptr(k.sibling) && t.node != k.node
    {
      Rows(cells, root, k, t);
    }

    lemma Move(k: Ctx, t: Tree)
      requires k.In?
      ensures At(k, t) <==> At(k.up, Mk(k.side, t, k.color, k.node, k.sibling))
    {
      ZipUp(cells, root, k, t);
    }

    // ---------- RB_INSERT_COLOR ----------

    /** RB_SET_BLACKRED(parent, gparent), then the rotation that lifts parent, its left child. */
    method LiftLeft(parent: Node, gparent: Node, ghost k: Ctx, ghost tp: Tree, ghost c: Color, ghost u: Tree)
      requires At(k, Fork(tp, c, gparent, u)) && tp.Fork? && tp.node == parent
      modifies this`root, this`cells, this`rotations, cells.Keys
      ensures At(k, Fork(tp.left, Black, parent, Fork(tp.right, Red, gparent, u))) && cells.Keys == old(cells.Keys)
      ensures rotations == old(rotations) + 1
    {
      Move(In(L, k, c, gparent, u), tp);
      Paint(parent, Black, In(L, k, c, gparent, u), tp);
      Move(In(L, k, c, gparent, u), tp.(color := Black));
      Paint(gparent, Red, k, Fork(tp.(color := Black), c, gparent, u));
      TurnRight(gparent, k, Fork(tp.(color := Black), Red, gparent, u));
    }

    method LiftRight(parent: Node, gparent: Node, ghost k: Ctx, ghost tp: Tree, ghost c: Color, ghost u: Tree)
      requires At(k, Fork(u, c, gparent, tp)) && tp.Fork? && tp.node == parent
      modifies this`root, this`cells, this`rotations, cells.Keys
      ensures At(k, Fork(Fork(u, Red, gparent, tp.left), Black, parent, tp.right)) && cells.Keys == old(cells.Keys)
      ensures rotations == old(rotations) + 1
    {
      Move(In(R, k, c, gparent, u), tp);
      Paint(parent, Black, In(R, k, c, gparent, u), tp);
      Move(In(R, k, c, gparent, u), tp.(color := Black));
      Paint(gparent, Red, k, Fork(u, c, gparent, tp.(color := Black)));
      TurnLeft(gparent, k, Fork(u, Red, gparent, tp.(color := Black)));
    }

    /** A red uncle: parent and uncle turn black, the grandparent red. */
    method Recolor(tmp: Node, parent: Node, gparent: Node, ghost d: Side, ghost k: Ctx, ghost tp: Tree, ghost u: Tree)
      requires At(k, Mk(d, tp, Black, gparent, u)) && tp.Fork? && tp.node == parent && u.Fork? && u.node == tmp
      modifies this`cells, cells.Keys
      ensures At(k, Mk(d, tp.(color := Black), Red, gparent, u.(color := Black))) && cells.Keys == old(cells.Keys)
    {
      ghost var e := if d.L? then R else L;
      Move(In(e, k, Black, gparent, tp), u);
      Paint(tmp, Black, In(e, k, Black, gparent, tp), u);
      ghost var u' := u.(color := Black);
      Move(In(e, k, Black, gparent, tp), u');
      Move(In(d, k, Black, gparent, u'), tp);
      Paint(parent, Black, In(d, k, Black, gparent, u'), tp);
      Move(In(d, k, Black, gparent, u'), tp.(color := Black));
      Paint(gparent, Red, k, Mk(d, tp.(color := Black), Black, gparent, u'));
    }

    /** If elm is the right child of parent, a rotation makes it the upper of the two. */
    method StraightenLeft(elm: Node, parent: Node, ghost k: Ctx, ghost t: Tree)
        returns (top: Node, next: Node, ghost tp: Tree)
      requires At(k, t) && RedRed(k, t) && t.node == elm && k.In? && k.color.Red? && k.node == parent
      modifies this`root, this`cells, this`rotations, cells.Keys
      ensures At(k.up, tp) && cells.Keys == old(cells.Keys) && rotations == old(rotations) + if top == elm then 1 else 0
      ensures tp.Fork? && tp.node == top && IsRed(tp.left) && tp.left.node == next
      ensures Balanced(tp.left) && Balanced(tp.right) && !IsRed(tp.right)
      ensures BlackHeight(tp.left) == BlackHeight(tp.right) == BlackHeight(t)
      ensures Inorder(tp) == Inorder(Mk(k.side, t, Red, parent, k.sibling))
    {
      RedParent(k, t);
      Look(k, t);
      Move(k, t);
      top, next := parent, elm;
      tp := Mk(k.side, t, Red, parent, k.sibling);
      if parent.right == elm {
        TurnLeft(parent, k.up, tp);
        RotateInorder(k.sibling, Red, parent, t.left, Red, elm, t.right);
        tp := Fork(Fork(k.sibling, Red, parent, t.left), Red, elm, t.right);
        top, next := elm, parent;
      }
    }

    /** The mirror image: if elm is the left child of parent. */
    method StraightenRight(elm: Node, parent: Node, ghost k: Ctx, ghost t: Tree)
        returns (top: Node, next: Node, ghost tp: Tree)
      requires At(k, t) && RedRed(k, t) && t.node == elm && k.In? && k.color.Red? && k.node == parent
      modifies this`root, this`cells, this`rotations, cells.Keys
      ensures At(k.up, tp) && cells.Keys == old(cells.Keys) && rotations == old(rotations) + if top == elm then 1 else 0
      ensures tp.Fork? && tp.node == top && IsRed(tp.right) && tp.right.node == next
      ensures Balanced(tp.right) && Balanced(tp.left) && !IsRed(tp.left)
      ensures BlackHeight(tp.right) == BlackHeight(tp.left) == BlackHeight(t)
      ensures Inorder(tp) == Inorder(Mk(k.side, t, Red, parent, k.sibling))
    {
      RedParent(k, t);
      Look(k, t);
      Move(k, t);
      top, next := parent, elm;
      tp := Mk(k.side, t, Red, parent, k.sibling);
      if parent.left == elm {
        TurnRight(parent, k.up, tp);
        RotateInorder(t.left, Red, elm, t.right, Red, parent, k.sibling);
        tp := Fork(t.left, Red, elm, Fork(t.right, Red, parent, k.sibling));
        top, next := elm, parent;
      }
    }

    /** The branch of the loop body for a parent that is a left child. */
    method InsertColorLeft(elm: Node, parent: Node, gparent: Node, ghost k: Ctx, ghost t: Tree)
        returns (next: Node, ghost k': Ctx, ghost t': Tree)
      requires At(k, t) && RedRed(k, t) && t.node == elm && k.In? && k.color.Red? && k.node == parent
      requires k.up.side.L? && k.up.node == gparent
      modifies this`root, this`cells, this`rotations, cells.Keys
      ensures At(k', t') && RedRed(k', t') && t'.node == next && cells.Keys == old(cells.Keys) && Base(k') == Base(k)
      ensures Inorder(Plug(k', t')) == Inorder(Plug(k, t)) && Depth(k') < Depth(k)
      ensures old(rotations) <= rotations <= old(rotations) + 2
      ensures rotations != old(rotations) ==> k'.In? && k'.color.Black?
    {
      ghost var kg, u, tp := k.up.up, k.up.sibling, Mk(k.side, t, Red, parent, k.sibling);
      Move(k, t);
      Look(k.up, tp);
      Move(k.up, tp);
      Move(In(R, kg, Black, gparent, tp), u);
      Look(In(R, kg, Black, gparent, tp), u);
      var tmp := gparent.right;
      if tmp != null && tmp.color == Red {
        Recolor(tmp, parent, gparent, L, kg, tp, u);
        RecolorBalanced(k, t);
        next, k', t' := gparent, kg, Fork(tp.(color := Black), Red, gparent, u.(color := Black));
        SameInorder(kg, Fork(tp, Black, gparent, u), t');
      } else {
        next, k', t' := InsertTurnLeft(elm, parent, gparent, k, t);
      }
    }

    /** The one or two rotations for a parent that is a left child. */
    method InsertTurnLeft(elm: Node, parent: Node, gparent: Node, ghost k: Ctx, ghost t: Tree)
        returns (next: Node, ghost k': Ctx, ghost t': Tree)
      requires At(k, t) && RedRed(k, t) && t.node == elm && k.In? && k.color.Red? && k.node == parent
      requires k.up.In? && k.up.side.L? && k.up.node == gparent && !IsRed(k.up.sibling)
      modifies this`root, this`cells, this`rotations, cells.Keys
      ensures At(k', t') && RedRed(k', t') && t'.node == next && cells.Keys == old(cells.Keys) && Base(k') == Base(k)
      ensures Inorder(Plug(k', t')) == Inorder(Plug(k, t)) && Depth(k') < Depth(k) && k'.In? && k'.color.Black?
      ensures old(rotations) < rotations <= old(rotations) + 2
    {
      ghost var kg, u, tp := k.up.up, k.up.sibling, Mk(k.side, t, Red, parent, k.sibling);
      var top;
      RedParent(k, t);
      top, next, tp := StraightenLeft(elm, parent, k, t);
      Move(k.up, tp);
      LiftLeft(top, gparent, kg, tp, Black, u);
      k', t' := In(L, kg, Black, top, Fork(tp.right, Red, gparent, u)), tp.left;
      Move(k', t');
      InsertTurned(k, t, tp);
    }

    /** The branch for a parent that is a right child. */
    method InsertColorRight(elm: Node, parent: Node, gparent: Node, ghost k: Ctx, ghost t: Tree)
        returns (next: Node, ghost k': Ctx, ghost t': Tree)
      requires At(k, t) && RedRed(k, t) && t.node == elm && k.In? && k.color.Red? && k.node == parent
      requires k.up.side.R? && k.up.node == gparent
      modifies this`root, this`cells, this`rotations, cells.Keys
      ensures At(k', t') && RedRed(k', t') && t'.node == next && cells.Keys == old(cells.Keys) && Base(k') == Base(k)
      ensures Inorder(Plug(k', t')) == Inorder(Plug(k, t)) && Depth(k') < Depth(k)
      ensures old(rotations) <= rotations <= old(rotations) + 2
      ensures rotations != old(rotations) ==> k'.In? && k'.color.Black?
    {
      ghost var kg, u, tp := k.up.up, k.up.sibling, Mk(k.side, t, Red, parent, k.sibling);
      Move(k, t);
      Look(k.up, tp);
      Move(k.up, tp);
      Move(In(L, kg, Black, gparent, tp), u);
      Look(In(L, kg, Black, gparent, tp), u);
      var tmp := gparent.left;
      if tmp != null && tmp.color == Red {
        Recolor(tmp, parent, gparent, R, kg, tp, u);
        RecolorBalanced(k, t);
        next, k', t' := gparent, kg, Fork(u.(color := Black), Red, gparent, tp.(color := Black));
        SameInorder(kg, Fork(u, Black, gparent, tp), t');
      } else {
        next, k', t' := InsertTurnRight(elm, parent, gparent, k, t);
      }
    }

    method InsertTurnRight(elm: Node, parent: Node, gparent: Node, ghost k: Ctx, ghost t: Tree)
        returns (next: Node, ghost k': Ctx, ghost t': Tree)
      requires At(k, t) && RedRed(k, t) && t.node == elm && k.In? && k.color.Red? && k.node == parent
      requires k.up.In? && k.up.side.R? && k.up.node == gparent && !IsRed(k.up.sibling)
      modifies this`root, this`cells, this`rotations, cells.Keys
      ensures At(k', t') && RedRed(k', t') && t'.node == next && cells.Keys == old(cells.Keys) && Base(k') == Base(k)
      ensures Inorder(Plug(k', t')) == Inorder(Plug(k, t)) && Depth(k') < Depth(k) && k'.In? && k'.color.Black?
      ensures old(rotations) < rotations <= old(rotations) + 2
    {
      ghost var kg, u, tp := k.up.up, k.up.sibling, Mk(k.side, t, Red, parent, k.sibling);
      var top;
      RedParent(k, t);
      top, next, tp := StraightenRight(elm, parent, k, t);
      Move(k.up, tp);
      LiftRight(top, gparent, kg, tp, Black, u);
      k', t' := In(R, kg, Black, top, Fork(u, Red, gparent, tp.left)), tp.right;
      Move(k', t');
      InsertTurned(k, t, tp);
    }

    /** One turn of the loop: the two branches on which child of its parent the parent is. */
    method InsertColorStep(elm: Node, parent: Node, ghost k: Ctx, ghost t: Tree)
        returns (next: Node, ghost k': Ctx, ghost t': Tree)
      requires At(k, t) && RedRed(k, t) && t.node == elm && k.In? && k.color.Red? && k.node == parent
      modifies this`root, this`cells, this`rotations, cells.Keys
      ensures At(k', t') && RedRed(k', t') && t'.node == next && cells.Keys == old(cells.Keys) && Base(k') == Base(k)
      ensures Inorder(Plug(k', t')) == Inorder(Plug(k, t)) && Depth(k') < Depth(k)
      ensures old(rotations) <= rotations <= old(rotations) + 2
      ensures rotations != old(rotations) ==> k'.In? && k'.color.Black?
    {
      RedParent(k, t);
      Move(k, t);
      Look(k.up, Mk(k.side, t, k.color, k.node, k.sibling));
      var gparent := parent.parent;
      if parent == gparent.left {
        next, k', t' := InsertColorLeft(elm, parent, gparent, k, t);
      } else {
        next, k', t' := InsertColorRight(elm, parent, gparent, k, t);
      }
    }

    /** Turns the one possible violation, a red elm below a red parent, into a red-black tree. */
    method InsertColor(node: Node, ghost k0: Ctx, ghost t0: Tree) returns (ghost t: Tree)
      requires At(k0, t0) && RedRed(k0, t0) && t0.node == node
      modifies this`root, this`cells, this`rotations, cells.Keys
      ensures At(Base(k0), t) && RedBlack(t) && Inorder(t) == Inorder(Plug(k0, t0)) && cells.Keys == old(cells.Keys)
      ensures old(rotations) <= rotations <= old(rotations) + 2
    {
      var elm := node;
      ghost var k := k0;
      t := t0;
      Look(k, t);
      var parent := elm.parent;
      while parent != null && parent.color == Red
        invariant At(k, t) && RedRed(k, t) && t.node == elm && parent == Par(k) && (k.In? ==> parent.color == k.color)
        invariant cells.Keys == old(cells.Keys) && Base(k) == Base(k0) && Inorder(Plug(k, t)) == Inorder(Plug(k0, t0))
        invariant old(rotations) <= rotations <= old(rotations) + 2
        invariant rotations != old(rotations) ==> k.In? && k.color.Black?
        decreases Depth(k)
      {
        elm, k, t := InsertColorStep(elm, parent, k, t);
        Look(k, t);
        parent := elm.parent;
      }
      t := BlackenRoot(k, t);
    }

    method BlackenRoot(ghost k: Ctx, ghost t0: Tree) returns (ghost t: Tree)
      requires At(k, t0) && RedRed(k, t0) && (k.In? ==> k.color.Black?)
      modifies this`cells, cells.Keys
      ensures At(Base(k), t) && RedBlack(t) && Inorder(t) == Inorder(Plug(k, t0)) && cells.Keys == old(cells.Keys)
    {
      RootBlackened(k, t0);
      ZipPlug(cells, root, k, t0);
      ghost var b := Base(k);
      t := Plug(k, t0);
      Look(b, t);
      Paint(root, Black, b, t);
      t := t.(color := Black);
    }

    // ---------- RB_REMOVE_COLOR ----------

    /** What the sibling's children hold, read from the sibling. */
    lemma LookSibling(k: Ctx, t: Tree)
      requires At(k, t) && k.In? && k.sibling.Fork?
      ensures var s := k.sibling;
              && (if k.side.L? then k.node.right else k.node.left) == s.node
              && s.node in cells && s.node.left == Ptr(s.left) && s.node.right == Ptr(s.right) && s.node.color == s.color
              && (s.left.Fork? ==> s.left.node in cells && s.left.node.color == s.left.color)
              && (s.right.Fork? ==> s.right.node in cells && s.right.node.color == s.right.color)
    {
      var s := k.sibling;
      assert Rep(cells, s, k.node) && Rep(cells, s.left, s.node) && Rep(cells, s.right, s.node);
    }

    /** A red sibling on the right: RB_SET_BLACKRED(tmp, parent) and RB_ROTATE_LEFT(parent). */
    method LiftSiblingLeft(parent: Node, tmp: Node, ghost k: Ctx, ghost t: Tree) returns (ghost k': Ctx)
      requires At(k, t) && Short(k, t) && !IsRed(t) && k.In? && k.side.L? && k.node == parent
      requires IsRed(k.sibling) && k.sibling.node == tmp
      modifies this`root, this`cells, this`rotations, cells.Keys
      ensures At(k', t) && Short(k', t) && cells.Keys == old(cells.Keys) && rotations == old(rotations) + 1 && Base(k') == Base(k)
      ensures k'.In? && k'.side.L? && k'.node == parent && k'.color.Red? && !IsRed(k'.sibling)
      ensures Depth(k') == Depth(k) + 1 && Inorder(Plug(k', t)) == Inorder(Plug(k, t))
    {
      ghost var s := k.sibling;
      ShortParts(k, t);
      Move(k, t);
      LiftRight(tmp, parent, k.up, s, Black, t);
      k' := In(L, In(L, k.up, Black, tmp, s.right), Red, parent, s.left);
      Move(k'.up, Fork(t, Red, parent, s.left));
      Move(k', t);
      LiftedSibling(L, k.up, parent, t, s.left, tmp, s.right);
      RotateInorder(t, Black, parent, s.left, Red, tmp, s.right);
      SameInorder(k.up, Fork(t, Black, parent, s), Fork(Fork(t, Red, parent, s.left), Black, tmp, s.right));
    }

    /** A red child on the left only: it is lifted over the sibling. */
    method LiftNephewLeft(parent: Node, sibling: Node, ghost k: Ctx, ghost t: Tree) returns (tmp: Node, ghost s: Tree)
      requires At(k, t) && Short(k, t) && !IsRed(t) && k.In? && k.side.L? && k.node == parent
      requires !IsRed(k.sibling) && k.sibling.node == sibling && (IsRed(k.sibling.left) || IsRed(k.sibling.right))
      modifies this`root, this`cells, this`rotations, cells.Keys
      ensures At(k.up, Fork(t, k.color, parent, s)) && cells.Keys == old(cells.Keys)
      ensures old(rotations) <= rotations <= old(rotations) + 1
      ensures s.Fork? && s.node == tmp && Balanced(s.left) && Balanced(s.right) && IsRed(s.right)
      ensures BlackHeight(s.left) == BlackHeight(s.right) == BlackHeight(t) && Inorder(s) == Inorder(k.sibling)
    {
      s := k.sibling;
      ghost var ks := In(R, k.up, k.color, parent, t);
      ShortParts(k, t);
      Move(k, t);
      Move(ks, s);
      Look(ks, s);
      Move(In(R, ks, Black, sibling, s.left), s.right);
      Look(In(R, ks, Black, sibling, s.left), s.right);
      tmp := sibling;
      if tmp.right == null || tmp.right.color == Black {
        var oleft := tmp.left;
        LiftLeft(oleft, tmp, ks, s.left, Black, s.right);
        RotateInorder(s.left.left, Red, oleft, s.left.right, Black, sibling, s.right);
        s := Fork(s.left.left, Black, oleft, Fork(s.left.right, Red, sibling, s.right));
        Move(ks, s);
        Look(k.up, Fork(t, k.color, parent, s));
        tmp := parent.right;
      }
    }

    /** tmp, the child on side `d`, takes the parent's colour, and the parent turns black. */
    method SwapColors(ghost d: Side, parent: Node, tmp: Node, ghost k: Ctx, ghost c: Color, ghost t: Tree, ghost s: Tree)
      requires At(k, Mk(d, s, c, parent, t)) && s.Fork? && s.node == tmp
      modifies this`cells, cells.Keys
      ensures At(k, Mk(d, s.(color := c), Black, parent, t)) && cells.Keys == old(cells.Keys)
    {
      ghost var ks := In(d, k, c, parent, t);
      Look(k, Mk(d, s, c, parent, t));
      Move(ks, s);
      Paint(tmp, parent.color, ks, s);
      Move(ks, s.(color := c));
      Paint(parent, Black, k, Mk(d, s.(color := c), c, parent, t));
    }

    /** The right child turns black. */
    method PaintRight(tmp: Node, ghost k: Ctx, ghost s: Tree)
      requires At(k, s) && s.Fork? && s.node == tmp
      modifies this`cells, cells.Keys
      ensures At(k, s.(right := Blacken(s.right))) && cells.Keys == old(cells.Keys)
    {
      ghost var kc := In(R, k, s.color, tmp, s.left);
      Look(k, s);
      Move(kc, s.right);
      if tmp.right != null {
        Paint(tmp.right, Black, kc, s.right);
      }
      Move(kc, Blacken(s.right));
    }

    /** tmp takes the parent's place and colour; its red right child turns black. */
    method SettleLeft(parent: Node, tmp: Node, ghost k: Ctx, ghost c: Color, ghost t: Tree, ghost s: Tree)
      requires At(k, Fork(t, c, parent, s)) && s.Fork? && s.node == tmp && IsRed(s.right)
      modifies this`root, this`cells, this`rotations, cells.Keys
      ensures At(k, Fork(Fork(t, Black, parent, s.left), c, tmp, Blacken(s.right))) && cells.Keys == old(cells.Keys)
      ensures rotations == old(rotations) + 1
    {
      ghost var ks, s1 := In(R, k, Black, parent, t), s.(color := c);
      SwapColors(R, parent, tmp, k, c, t, s);
      Move(ks, s1);
      PaintRight(tmp, ks, s1);
      Move(ks, s1.(right := Blacken(s.right)));
      TurnLeft(parent, k, Fork(t, Black, parent, s1.(right := Blacken(s.right))));
    }

    /** A red child of a black sibling on the right: everything is balanced at the end. */
    method RestoreLeft(parent: Node, sibling: Node, ghost k0: Ctx, ghost t0: Tree) returns (ghost t: Tree)
      requires At(k0, t0) && Short(k0, t0) && !IsRed(t0) && k0.In? && k0.side.L? && k0.node == parent
      requires !IsRed(k0.sibling) && k0.sibling.node == sibling && (IsRed(k0.sibling.left) || IsRed(k0.sibling.right))
      modifies this`root, this`cells, this`rotations, cells.Keys
      ensures At(Base(k0), t) && RedBlack(t) && cells.Keys == old(cells.Keys) && Inorder(t) == Inorder(Plug(k0, t0))
      ensures old(rotations) < rotations <= old(rotations) + 2
    {
      ghost var k, c, s := k0.up, k0.color, k0.sibling;
      var tmp;
      ShortParts(k0, t0);
      tmp, s := LiftNephewLeft(parent, sibling, k0, t0);
      SettleLeft(parent, tmp, k, c, t0, s);
      t := Fork(Fork(t0, Black, parent, s.left), c, tmp, Blacken(s.right));
      Settled(L, k, c, parent, t0, s.left, tmp, s.right);
      SettledInorder(L, k, c, parent, t0, k0.sibling, s);
      ZipPlug(cells, root, k, t);
      t := Plug(k, t);
    }

    /** A red-black tree at the root counts as short: nothing is missing below its root. */
    lemma AtRoot(k: Ctx, t: Tree)
      requires At(Base(k), t) && RedBlack(t)
      ensures Base(k).Top? && root == Ptr(t) && Short(Base(k), t) && Plug(Base(k), t) == t
    {
      BaseTop(k);
      Look(Base(k), t);
    }

    /** A black sibling without red children turns red. */
    method ReddenSibling(parent: Node, tmp: Node, ghost k0: Ctx, ghost t0: Tree) returns (ghost t: Tree)
      requires At(k0, t0) && Short(k0, t0) && !IsRed(t0) && k0.In? && k0.node == parent
      requires k0.sibling.Fork? && k0.sibling.node == tmp
      requires !IsRed(k0.sibling) && !IsRed(k0.sibling.left) && !IsRed(k0.sibling.right)
      modifies this`root, this`cells, cells.Keys
      ensures At(k0.up, t) && Short(k0.up, t) && t.Fork? && t.node == parent && t.color == k0.color
      ensures cells.Keys == old(cells.Keys) && Inorder(Plug(k0.up, t)) == Inorder(Plug(k0, t0))
    {
      ghost var k, s := k0.up, k0.sibling;
      ghost var ks := In(if k0.side.L? then R else L, k, k0.color, parent, t0);
      Move(k0, t0);
      Move(ks, s);
      Paint(tmp, Red, ks, s);
      Move(ks, s.(color := Red));
      SiblingReddened(k0, t0);
      t := Mk(k0.side, t0, k0.color, parent, s.(color := Red));
      SameInorder(k, Mk(k0.side, t0, k0.color, parent, s), t);
    }

    /** The branch of the loop body for a short left subtree. `settled` stands for the break. */
    method RemoveColorLeft(elm: Node?, parent: Node, ghost k0: Ctx, ghost t0: Tree)
        returns (next: Node?, up: Node?, settled: bool, ghost k: Ctx, ghost t: Tree)
      requires At(k0, t0) && Short(k0, t0) && !IsRed(t0) && Ptr(t0) == elm
      requires k0.In? && k0.side.L? && k0.node == parent
      modifies this`root, this`cells, this`rotations, cells.Keys
      ensures At(k, t) && Short(k, t) && Ptr(t) == next && cells.Keys == old(cells.Keys) && Base(k) == Base(k0)
      ensures Inorder(Plug(k, t)) == Inorder(Plug(k0, t0))
      ensures old(rotations) <= rotations <= old(rotations) + 3
      ensures settled ==> k.Top? && RedBlack(t)
      ensures !settled ==> up == Par(k) && (rotations != old(rotations) ==> IsRed(t)) &&
                           (Depth(k) < Depth(k0) || (Depth(k) == Depth(k0) && IsRed(t)))
    {
      k, t, settled := k0, t0, false;
      ShortParts(k, t);
      LookSibling(k, t);
      var tmp := parent.right;
      if tmp.color == Red {
        k := LiftSiblingLeft(parent, tmp, k, t);
        ShortParts(k, t);
        LookSibling(k, t);
        tmp := parent.right;
      }
      next, up, settled, k, t := BlackSiblingLeft(parent, tmp, k, t);
    }

    /** With a black sibling. */
    method BlackSiblingLeft(parent: Node, tmp: Node, ghost k0: Ctx, ghost t0: Tree)
        returns (next: Node?, up: Node?, settled: bool, ghost k: Ctx, ghost t: Tree)
      requires At(k0, t0) && Short(k0, t0) && !IsRed(t0) && k0.In? && k0.side.L? && k0.node == parent
      requires k0.sibling.Fork? && k0.sibling.node == tmp && !IsRed(k0.sibling)
      modifies this`root, this`cells, this`rotations, cells.Keys
      ensures At(k, t) && Short(k, t) && Ptr(t) == next && cells.Keys == old(cells.Keys) && Base(k) == Base(k0)
      ensures Inorder(Plug(k, t)) == Inorder(Plug(k0, t0))
      ensures old(rotations) <= rotations <= old(rotations) + 2
      ensures settled ==> k.Top? && RedBlack(t)
      ensures !settled ==> k == k0.up && up == Par(k) && rotations == old(rotations) && t.Fork? && t.color == k0.color
    {
      k, t, settled := k0, t0, false;
      LookSibling(k, t);
      if (tmp.left == null || tmp.left.color == Black) && (tmp.right == null || tmp.right.color == Black) {
        t := ReddenSibling(parent, tmp, k, t);
        k, next := k.up, parent;
        Look(k, t);
        up := next.parent;
      } else {
        t := RestoreLeft(parent, tmp, k, t);
        AtRoot(k, t);
        k := Base(k);
        next, up, settled := root, parent, true;
      }
    }

    // the mirror images

    /** A red sibling on the left: RB_SET_BLACKRED(tmp, parent) and RB_ROTATE_RIGHT(parent). */
    method LiftSiblingRight(parent: Node, tmp: Node, ghost k: Ctx, ghost t: Tree) returns (ghost k': Ctx)
      requires At(k, t) && Short(k, t) && !IsRed(t) && k.In? && k.side.R? && k.node == parent
      requires IsRed(k.sibling) && k.sibling.node == tmp
      modifies this`root, this`cells, this`rotations, cells.Keys
      ensures At(k', t) && Short(k', t) && cells.Keys == old(cells.Keys) && rotations == old(rotations) + 1 && Base(k') == Base(k)
      ensures k'.In? && k'.side.R? && k'.node == parent && k'.color.Red? && !IsRed(k'.sibling)
      ensures Depth(k') == Depth(k) + 1 && Inorder(Plug(k', t)) == Inorder(Plug(k, t))
    {
      ghost var s := k.sibling;
      ShortParts(k, t);
      Move(k, t);
      LiftLeft(tmp, parent, k.up, s, Black, t);
      k' := In(R, In(R, k.up, Black, tmp, s.left), Red, parent, s.right);
      Move(k'.up, Fork(s.right, Red, parent, t));
      Move(k', t);
      LiftedSibling(R, k.up, parent, t, s.right, tmp, s.left);
      RotateInorder(s.left, Red, tmp, s.right, Black, parent, t);
      SameInorder(k.up, Fork(s, Black, parent, t), Fork(s.left, Black, tmp, Fork(s.right, Red, parent, t)));
    }

    /** A red child on the right only: it is lifted over the sibling. */
    method LiftNephewRight(parent: Node, sibling: Node, ghost k: Ctx, ghost t: Tree) returns (tmp: Node, ghost s: Tree)
      requires At(k, t) && Short(k, t) && !IsRed(t) && k.In? && k.side.R? && k.node == parent
      requires !IsRed(k.sibling) && k.sibling.node == sibling && (IsRed(k.sibling.right) || IsRed(k.sibling.left))
      modifies this`root, this`cells, this`rotations, cells.Keys
      ensures At(k.up, Fork(s, k.color, parent, t)) && cells.Keys == old(cells.Keys)
      ensures old(rotations) <= rotations <= old(rotations) + 1
      ensures s.Fork? && s.node == tmp && Balanced(s.right) && Balanced(s.left) && IsRed(s.left)
      ensures BlackHeight(s.right) == BlackHeight(s.left) == BlackHeight(t) && Inorder(s) == Inorder(k.sibling)
    {
      s := k.sibling;
      ghost var ks := In(L, k.up, k.color, parent, t);
      ShortParts(k, t);
      Move(k, t);
      Move(ks, s);
      Look(ks, s);
      Move(In(L, ks, Black, sibling, s.right), s.left);
      Look(In(L, ks, Black, sibling, s.right), s.left);
      tmp := sibling;
      if tmp.left == null || tmp.left.color == Black {
        var oright := tmp.right;
        LiftRight(oright, tmp, ks, s.right, Black, s.left);
        RotateInorder(s.left, Black, sibling, s.right.left, Red, oright, s.right.right);
        s := Fork(Fork(s.left, Red, sibling, s.right.left), Black, oright, s.right.right);
        Move(ks, s);
        Look(k.up, Fork(s, k.color, parent, t));
        tmp := parent.left;
      }
    }

    /** The left child turns black. */
    method PaintLeft(tmp: Node, ghost k: Ctx, ghost s: Tree)
      requires At(k, s) && s.Fork? && s.node == tmp
      modifies this`cells, cells.Keys
      ensures At(k, s.(left := Blacken(s.left))) && cells.Keys == old(cells.Keys)
    {
      ghost var kc := In(L, k, s.color, tmp, s.right);
      Look(k, s);
      Move(kc, s.left);
      if tmp.left != null {
        Paint(tmp.left, Black, kc, s.left);
      }
      Move(kc, Blacken(s.left));
    }

    /** tmp takes the parent's place and colour; its red left child turns black. */
    method SettleRight(parent: Node, tmp: Node, ghost k: Ctx, ghost c: Color, ghost t: Tree, ghost s: Tree)
      requires At(k, Fork(s, c, parent, t)) && s.Fork? && s.node == tmp && IsRed(s.left)
      modifies this`root, this`cells, this`rotations, cells.Keys
      ensures At(k, Fork(Blacken(s.left), c, tmp, Fork(s.right, Black, parent, t))) && cells.Keys == old(cells.Keys)
      ensures rotations == old(rotations) + 1
    {
      ghost var ks, s1 := In(L, k, Black, parent, t), s.(color := c);
      SwapColors(L, parent, tmp, k, c, t, s);
      Move(ks, s1);
      PaintLeft(tmp, ks, s1);
      Move(ks, s1.(left := Blacken(s.left)));
      TurnRight(parent, k, Fork(s1.(left := Blacken(s.left)), Black, parent, t));
    }

    /** A red child of a black sibling on the left: everything is balanced at the end. */
    method RestoreRight(parent: Node, sibling: Node, ghost k0: Ctx, ghost t0: Tree) returns (ghost t: Tree)
      requires At(k0, t0) && Short(k0, t0) && !IsRed(t0) && k0.In? && k0.side.R? && k0.node == parent
      requires !IsRed(k0.sibling) && k0.sibling.node == sibling && (IsRed(k0.sibling.right) || IsRed(k0.sibling.left))
      modifies this`root, this`cells, this`rotations, cells.Keys
      ensures At(Base(k0), t) && RedBlack(t) && cells.Keys == old(cells.Keys) && Inorder(t) == Inorder(Plug(k0, t0))
      ensures old(rotations) < rotations <= old(rotations) + 2
    {
      ghost var k, c, s := k0.up, k0.color, k0.sibling;
      var tmp;
      ShortParts(k0, t0);
      tmp, s := LiftNephewRight(parent, sibling, k0, t0);
      SettleRight(parent, tmp, k, c, t0, s);
      t := Fork(Blacken(s.left), c, tmp, Fork(s.right, Black, parent, t0));
      Settled(R, k, c, parent, t0, s.right, tmp, s.left);
      SettledInorder(R, k, c, parent, t0, k0.sibling, s);
      ZipPlug(cells, root, k, t);
      t := Plug(k, t);
    }

    /** The branch of the loop body for a short right subtree. `settled` stands for the break. */
    method RemoveColorRight(elm: Node?, parent: Node, ghost k0: Ctx, ghost t0: Tree)
        returns (next: Node?, up: Node?, settled: bool, ghost k: Ctx, ghost t: Tree)
      requires At(k0, t0) && Short(k0, t0) && !IsRed(t0) && Ptr(t0) == elm
      requires k0.In? && k0.side.R? && k0.node == parent
      modifies this`root, this`cells, this`rotations, cells.Keys
      ensures At(k, t) && Short(k, t) && Ptr(t) == next && cells.Keys == old(cells.Keys) && Base(k) == Base(k0)
      ensures Inorder(Plug(k, t)) == Inorder(Plug(k0, t0))
      ensures old(rotations) <= rotations <= old(rotations) + 3
      ensures settled ==> k.Top? && RedBlack(t)
      ensures !settled ==> up == Par(k) && (rotations != old(rotations) ==> IsRed(t)) &&
                           (Depth(k) < Depth(k0) || (Depth(k) == Depth(k0) && IsRed(t)))
    {
      k, t, settled := k0, t0, false;
      ShortParts(k, t);
      LookSibling(k, t);
      var tmp := parent.left;
      if tmp.color == Red {
        k := LiftSiblingRight(parent, tmp, k, t);
        ShortParts(k, t);
        LookSibling(k, t);
        tmp := parent.left;
      }
      next, up, settled, k, t := BlackSiblingRight(parent, tmp, k, t);
    }

    /** With a black sibling. */
    method BlackSiblingRight(parent: Node, tmp: Node, ghost k0: Ctx, ghost t0: Tree)
        returns (next: Node?, up: Node?, settled: bool, ghost k: Ctx, ghost t: Tree)
      requires At(k0, t0) && Short(k0, t0) && !IsRed(t0) && k0.In? && k0.side.R? && k0.node == parent
      requires k0.sibling.Fork? && k0.sibling.node == tmp && !IsRed(k0.sibling)
      modifies this`root, this`cells, this`rotations, cells.Keys
      ensures At(k, t) && Short(k, t) && Ptr(t) == next && cells.Keys == old(cells.Keys) && Base(k) == Base(k0)
      ensures Inorder(Plug(k, t)) == Inorder(Plug(k0, t0))
      ensures old(rotations) <= rotations <= old(rotations) + 2
      ensures settled ==> k.Top? && RedBlack(t)
      ensures !settled ==> k == k0.up && up == Par(k) && rotations == old(rotations) && t.Fork? && t.color == k0.color
    {
      k, t, settled := k0, t0, false;
      LookSibling(k, t);
      if (tmp.left == null || tmp.left.color == Black) && (tmp.right == null || tmp.right.color == Black) {
        t := ReddenSibling(parent, tmp, k, t);
        k, next := k.up, parent;
        Look(k, t);
        up := next.parent;
      } else {
        t := RestoreRight(parent, tmp, k, t);
        AtRoot(k, t);
        k := Base(k);
        next, up, settled := root, parent, true;
      }
    }

    /** One turn of the loop: the two branches on which child of parent elm is. */
    method RemoveColorStep(elm: Node?, parent: Node, ghost k0: Ctx, ghost t0: Tree)
        returns (next: Node?, up: Node?, settled: bool, ghost k: Ctx, ghost t: Tree)
      requires At(k0, t0) && Short(k0, t0) && !IsRed(t0) && Ptr(t0) == elm && k0.In? && k0.node == parent
      modifies this`root, this`cells, this`rotations, cells.Keys
      ensures At(k, t) && Short(k, t) && Ptr(t) == next && cells.Keys == old(cells.Keys) && Base(k) == Base(k0)
      ensures Inorder(Plug(k, t)) == Inorder(Plug(k0, t0))
      ensures old(rotations) <= rotations <= old(rotations) + 3
      ensures settled ==> k.Top? && RedBlack(t)
      ensures !settled ==> up == Par(k) && (rotations != old(rotations) ==> IsRed(t)) &&
                           (Depth(k) < Depth(k0) || (Depth(k) == Depth(k0) && IsRed(t)))
    {
      ShortParts(k0, t0);
      Look(k0, t0);
      if parent.left == elm {
        next, up, settled, k, t := RemoveColorLeft(elm, parent, k0, t0);
      } else {
        next, up, settled, k, t := RemoveColorRight(elm, parent, k0, t0);
      }
    }

    /** Makes up for one black node missing on the paths through elm, the subtree in the hole of `k0`. */
    method RemoveColor(parent0: Node?, elm0: Node?, ghost k0: Ctx, ghost t0: Tree) returns (ghost t: Tree)
      requires At(k0, t0) && Short(k0, t0) && Ptr(t0) == elm0 && Par(k0) == parent0
      modifies this`root, this`cells, this`rotations, cells.Keys
      ensures At(Base(k0), t) && RedBlack(t) && Inorder(t) == Inorder(Plug(k0, t0)) && cells.Keys == old(cells.Keys)
      ensures old(rotations) <= rotations <= old(rotations) + 3
    {
      var parent, elm, settled := parent0, elm0, false;
      ghost var k := k0;
      t := t0;
      Look(k, t);
      while (elm == null || elm.color == Black) && elm != root
        invariant At(k, t) && Short(k, t) && Ptr(t) == elm && Par(k) == parent && (t.Fork? ==> elm.color == t.color)
        invariant k.Top? ==> elm == root
        invariant cells.Keys == old(cells.Keys) && Base(k) == Base(k0) && Inorder(Plug(k, t)) == Inorder(Plug(k0, t0))
        invariant old(rotations) <= rotations <= old(rotations) + 3 && (rotations != old(rotations) ==> IsRed(t))
        decreases 2 * Depth(k) + if IsRed(t) then 0 else 1
      {
        elm, parent, settled, k, t := RemoveColorStep(elm, parent, k, t);
        Look(k, t);
        if settled {
          break;
        }
      }
      if k.In? {
        RootOutside(cells, root, k, t);
      }
      t := BlackenLast(elm, k, t);
    }

    method BlackenLast(elm: Node?, ghost k: Ctx, ghost t0: Tree) returns (ghost t: Tree)
      requires At(k, t0) && Short(k, t0) && Ptr(t0) == elm && (IsRed(t0) || k.Top?)
      modifies this`cells, cells.Keys
      ensures At(Base(k), t) && RedBlack(t) && Inorder(t) == Inorder(Plug(k, t0)) && cells.Keys == old(cells.Keys)
    {
      if elm != null {
        Paint(elm, Black, k, t0);
      }
      ShortBlackened(k, t0);
      ZipPlug(cells, root, k, Blacken(t0));
      t := Plug(k, Blacken(t0));
    }

    // ---------- RB_REMOVE ----------

    /** Takes elm, which has the one subtree `child` at most, out of the tree. */
    method SpliceOut(elm: Node, child: Node?, parent: Node?, ghost k: Ctx, ghost t: Tree, ghost tc: Tree)
      requires At(k, t) && t.Fork? && t.node == elm && Ptr(tc) == child && Par(k) == parent
      requires (t.left.Nil? && tc == t.right) || (t.right.Nil? && tc == t.left)
      modifies this`root, this`cells, cells.Keys
      ensures At(k, tc) && cells.Keys == old(cells.Keys) && elm in cells && cells[elm] == old(cells[elm])
    {
      ghost var m, r := cells, root;
      SpliceRows(m, r, k, t, tc);
      if child != null {
        child.parent := parent;
      }
      Relink(parent, elm, child);
      Sync(child, null, null, parent);
      Spliced(m, cells, r, root, k, t, tc);
    }

    /** elm takes the place, the links and the colour of `node`. */
    method TakePlace(node: Node, elm: Node, ghost up: Node?, ghost lft: Node, ghost rgt: Node?)
      requires node.parent == up && node.left == lft && node.right == rgt
      requires elm != node && elm != up && elm != lft && elm != rgt && up != lft && (up != null ==> up != rgt) && lft != rgt
      requires node != up && node != lft && node != rgt
      modifies this`root, elm, lft, if up != null then {up} else {}, if rgt != null then {rgt} else {}
      ensures elm.left == lft && elm.right == rgt && elm.parent == up && elm.color == node.color
      ensures lft.parent == elm && lft.left == old(lft.left) && lft.right == old(lft.right) && lft.color == old(lft.color)
      ensures rgt != null ==> rgt.parent == elm && rgt.left == old(rgt.left) && rgt.right == old(rgt.right) &&
                              rgt.color == old(rgt.color)
      ensures up == null ==> root == elm
      ensures up != null ==> root == old(root) && up.parent == old(up.parent) && up.color == old(up.color)
      ensures up != null && old(up.left) == node ==> up.left == elm && up.right == old(up.right)
      ensures up != null && old(up.left) != node ==> up.left == old(up.left) && up.right == elm
    {
      elm.left, elm.right, elm.parent, elm.color := node.left, node.right, node.parent, node.color;
      Relink(node.parent, node, elm);
      node.left.parent := elm;
      if node.right != null {
        node.right.parent := elm;
      }
    }

    /** The detached elm replaces the node in focus. */
    method Replace(node: Node, elm: Node, ghost k: Ctx, ghost t: Tree)
      requires At(k, t) && t.Fork? && t.node == node && t.left.Fork? && elm in cells
      requires node.key < elm.key < Hi(k) && Ordered(t.right, elm.key, Hi(k))
      modifies this`root, this`cells, cells.Keys
      ensures At(k, t.(node := elm)) && cells.Keys == old(cells.Keys)
    {
      ghost var m, r, par, rgt := cells, root, Par(k), Ptr(t.right);
      ReplaceRows(m, r, k, t, elm);
      TakePlace(node, elm, par, t.left.node, rgt);
      Sync(elm, t.left.node, rgt, par);
      Replaced(m, cells, r, root, k, t, elm);
    }

    /** The least element right of the focus, at the end of a path to the left. */
    method Successor(node: Node, ghost k: Ctx, ghost t: Tree) returns (elm: Node, ghost path: Ctx, ghost u: Tree)
      requires At(k, t) && t.Fork? && t.node == node && t.right.Fork?
      ensures var kr := In(R, k, t.color, node, t.left);
              At(Join(path, kr), u) && u.Fork? && u.node == elm && u.left.Nil? && LeftPath(path) && Plug(path, u) == t.right
    {
      ghost var kr := In(R, k, t.color, node, t.left);
      path, u := Top(0, 0), t.right;
      Look(k, t);
      Move(kr, u);
      elm := node.right;
      Look(kr, u);
      var left := elm.left;
      while left != null
        invariant At(Join(path, kr), u) && u.Fork? && u.node == elm && left == Ptr(u.left)
        invariant LeftPath(path) && Plug(path, u) == t.right
        decreases u
      {
        path, u := In(L, path, u.color, elm, u.right), u.left;
        Move(Join(path, kr), u);
        elm := left;
        Look(Join(path, kr), u);
        left := elm.left;
      }
    }

    /** A node with two children gives its place to its successor. */
    method RemoveInner(node: Node, ghost k: Ctx, ghost t: Tree)
        returns (child: Node?, parent: Node?, color: Color, ghost k': Ctx, ghost t': Tree, ghost p: seq<Node>, ghost q: seq<Node>)
      requires At(k, t) && t.Fork? && t.node == node && t.left.Fork? && t.right.Fork? && RedBlack(Plug(k, t))
      modifies this`root, this`cells, cells.Keys
      ensures At(k', t') && Ptr(t') == child && Par(k') == parent && Missing(k', t', color) && Base(k') == Base(k)
      ensures Inorder(Plug(k, t)) == p + [node] + q && Inorder(Plug(k', t')) == p + q && cells.Keys == old(cells.Keys)
    {
      var elm;
      ghost var path, u;
      elm, path, u := Successor(node, k, t);
      ghost var kr, kr' := In(R, k, t.color, node, t.left), In(R, k, t.color, elm, t.left);
      ghost var r := Plug(path, u.right);
      LeftPathLo(path, kr);
      AboveLeast(path, kr, u.right, elm.key);
      Look(Join(path, kr), u);
      child := elm.right;
      parent := elm.parent;
      color := elm.color;
      SpliceOut(elm, child, parent, Join(path, kr), u, u.right);
      if elm.parent == node {
        parent := elm;
      }
      ZipJoin(cells, root, path, kr, u.right);
      Move(kr, r);
      Replace(node, elm, k, t.(right := r));
      Move(kr', r);
      ZipJoin(cells, root, path, kr', u.right);
      k', t' := Join(path, kr'), u.right;
      RemovedInner(k, t, path, u);
      p, q := ReplacedInorder(k, t, path, u);
    }

    /** Everything RB_REMOVE does before it looks at the colour that left. */
    method Detach(node: Node, ghost k: Ctx, ghost t: Tree)
        returns (child: Node?, parent: Node?, color: Color, ghost k': Ctx, ghost t': Tree, ghost p: seq<Node>, ghost q: seq<Node>)
      requires At(k, t) && t.Fork? && t.node == node && RedBlack(Plug(k, t))
      modifies this`root, this`cells, cells.Keys
      ensures At(k', t') && Ptr(t') == child && Par(k') == parent && Missing(k', t', color) && Base(k') == Base(k)
      ensures Inorder(Plug(k, t)) == p + [node] + q && Inorder(Plug(k', t')) == p + q && cells.Keys == old(cells.Keys)
    {
      Look(k, t);
      if node.left == null {
        child := node.right;
        k', t' := k, t.right;
      } else if node.right == null {
        child := node.left;
        k', t' := k, t.left;
      } else {
        child, parent, color, k', t', p, q := RemoveInner(node, k, t);
        return;
      }
      parent := node.parent;
      color := node.color;
      SplicedBalanced(k, t, t');
      p, q := SplicedInorder(k, t, t');
      SpliceOut(node, child, parent, k, t, t');
    }

    /** Every element can be focused on. */
    lemma Enter(node: Node) returns (k: Ctx, t: Tree)
      requires Valid() && node in Elements()
      ensures At(k, t) && t.Fork? && t.node == node && Plug(k, t) == shape && Base(k) == Top(lo, hi)
      ensures RedBlack(shape) && Ascending(Elements())
    {
      k, t := Locate(Top(lo, hi), shape, node);
      ZipPlug(cells, root, k, t);
      InorderAscending(shape, lo, hi);
    }

    /** Takes an element out of the tree; the rest keeps its order, and at most three rotations are made. */
    method Remove(node: Node) returns (removed: Node, ghost p: seq<Node>, ghost q: seq<Node>)
      requires Valid() && node in Elements()
      modifies this, cells.Keys
      ensures Valid() && removed == node && old(rotations) <= rotations <= old(rotations) + 3 && comparisons == old(comparisons)
      ensures old(Elements()) == p + [node] + q && Elements() == p + q
      ensures cells.Keys == old(cells.Keys) - {node}
    {
      ghost var k, t := Enter(node);
      ghost var all, was := Elements(), cells.Keys;
      t, p, q := TakeOut(node, k, t);
      assert all == p + [node] + q && cells.Keys == was;
      Forget(t, node, p, q);
      removed := node;
    }

    /** The node leaves the tree, and the colours are mended. */
    method TakeOut(node: Node, ghost k0: Ctx, ghost t0: Tree)
        returns (ghost t: Tree, ghost p: seq<Node>, ghost q: seq<Node>)
      requires At(k0, t0) && t0.Fork? && t0.node == node && RedBlack(Plug(k0, t0))
      modifies this`root, this`cells, this`rotations, cells.Keys
      ensures At(Base(k0), t) && RedBlack(t) && old(rotations) <= rotations <= old(rotations) + 3 && cells.Keys == old(cells.Keys)
      ensures Inorder(Plug(k0, t0)) == p + [node] + q && Inorder(t) == p + q
    {
      ghost var k;
      var child, parent, color;
      child, parent, color, k, t, p, q := Detach(node, k0, t0);
      t := Mend(color, parent, child, k, t);
    }

    /** The end of RB_REMOVE: a black node that has gone is made up for. */
    method Mend(color: Color, parent: Node?, child: Node?, ghost k: Ctx, ghost t0: Tree) returns (ghost t: Tree)
      requires At(k, t0) && Missing(k, t0, color) && Ptr(t0) == child && Par(k) == parent
      modifies this`root, this`cells, this`rotations, cells.Keys
      ensures At(Base(k), t) && RedBlack(t) && Inorder(t) == Inorder(Plug(k, t0)) && cells.Keys == old(cells.Keys)
      ensures old(rotations) <= rotations <= old(rotations) + 3
    {
      if color == Black {
        t := RemoveColor(parent, child, k, t0);
      } else {
        ZipPlug(cells, root, k, t0);
        t := Plug(k, t0);
      }
    }

    /** The tree is `t` now; the removed node is no longer among the cells. */
    ghost method Forget(t: Tree, node: Node, p: seq<Node>, q: seq<Node>)
      requires At(Top(lo, hi), t) && RedBlack(t) && Inorder(t) == p + q
      requires forall n :: n in cells ==> n in p + [node] + q
      requires Ascending(p + [node] + q)
      modifies this`cells, this`shape
      ensures Valid() && Elements() == p + q && cells.Keys == old(cells.Keys) - {node}
    {
      SortedApart(p, node, q, Key);
      RepForget(cells, t, null, node);
      shape := t;
      cells := cells - {node};
    }

    // ---------- RB_INSERT, RB_FIND ----------

    /** The comparison function handed to RB_GENERATE, on keys. */
    method Compare(a: int, b: int) returns (comp: int)
      modifies this`comparisons
      ensures comp == if a < b then -1 else if a > b then 1 else 0
      ensures comparisons == old(comparisons) + 1
    {
      comparisons := comparisons + 1;
      comp := if a < b then -1 else if a > b then 1 else 0;
    }

    /** One step down from the fork in focus towards `key`. */
    lemma Descend(k: Ctx, t: Tree, key: int)
      requires At(k, t) && t.Fork? && Lo(k) < key < Hi(k)
      ensures t.node in cells && t.node.left == Ptr(t.left) && t.node.right == Ptr(t.right)
      ensures t.node in Inorder(Plug(k, t))
      ensures key < t.node.key ==> At(In(L, k, t.color, t.node, t.right), t.left)
      ensures key > t.node.key ==> At(In(R, k, t.color, t.node, t.left), t.right)
    {
      Look(k, t);
      Move(In(L, k, t.color, t.node, t.right), t.left);
      Move(In(R, k, t.color, t.node, t.left), t.right);
      PlugInorder(k, t);
      assert t.node in Inorder(t);
    }

    /** No element has a key that belongs into an empty hole. */
    lemma Absent(k: Ctx, key: int)
      requires At(k, Nil) && Lo(k) < key < Hi(k)
      ensures forall n :: n in Inorder(Plug(k, Nil)) ==> n.key != key
    {
      PlugInorder(k, Nil);
      AroundHole(k);
    }

    /** RB_SET(elm, parent) and the link from the parent, or from the head. */
    method SetLinks(elm: Node, parent: Node?, comp: int)
      requires elm != parent
      modifies this`root, elm, if parent != null then {parent} else {}
      ensures elm.left == null && elm.right == null && elm.parent == parent && elm.color == Red
      ensures parent == null ==> root == elm
      ensures parent != null ==> root == old(root) && parent.parent == old(parent.parent) && parent.color == old(parent.color)
      ensures parent != null && comp < 0 ==> parent.left == elm && parent.right == old(parent.right)
      ensures parent != null && comp >= 0 ==> parent.right == elm && parent.left == old(parent.left)
    {
      elm.parent, elm.left, elm.right, elm.color := parent, null, null, Red;
      if parent != null {
        if comp < 0 {
          parent.left := elm;
        } else {
          parent.right := elm;
        }
      } else {
        root := elm;
      }
    }

    /** The new leaf in the heap. */
    method Link(elm: Node, parent: Node?, comp: int, ghost k: Ctx)
      requires At(k, Nil) && Par(k) == parent && elm !in cells && Lo(k) < elm.key < Hi(k)
      requires k.In? ==> (comp < 0 <==> k.side.L?)
      modifies this`root, this`cells, cells.Keys, elm
      ensures At(k, Fork(Nil, Red, elm, Nil)) && cells.Keys == old(cells.Keys) + {elm}
    {
      ghost var m, r := cells, root;
      Rows(m, r, k, Nil);
      SetLinks(elm, parent, comp);
      cells := cells[elm := Row(null, null, parent, Red)];
      Sync(parent, null, null, null);
      Linked(m, cells, r, root, k, elm);
    }

    /** RB_INSERT below its search loop. */
    method Attach(elm: Node, parent: Node?, comp: int, ghost k: Ctx)
        returns (ghost p: seq<Node>, ghost q: seq<Node>)
      requires Valid() && At(k, Nil) && Par(k) == parent && Lo(k) < elm.key < Hi(k) && Plug(k, Nil) == shape
      requires k.In? ==> (comp < 0 <==> k.side.L?)
      modifies this, cells.Keys, elm
      ensures Valid() && old(rotations) <= rotations <= old(rotations) + 2 && comparisons == old(comparisons)
      ensures old(Elements()) == p + q && Elements() == p + [elm] + q
      ensures elm !in old(cells.Keys) && cells.Keys == old(cells.Keys) + {elm}
    {
      ghost var t := Fork(Nil, Red, elm, Nil);
      Absent(k, elm.key);
      BaseTop(k);
      InsertBalanced(k, elm);
      p, q := LeafInorder(k, t);
      Link(elm, parent, comp, k);
      t := InsertColor(elm, k, t);
      Adopt(elm, t, Base(k).lo, Base(k).hi, p, q);
    }

    ghost method Adopt(elm: Node, t: Tree, lo': int, hi': int, p: seq<Node>, q: seq<Node>)
      requires At(Top(lo', hi'), t) && RedBlack(t) && Inorder(t) == p + [elm] + q
      requires forall n :: n in cells ==> n in p + q || n == elm
      modifies this`shape, this`lo, this`hi
      ensures Valid() && Elements() == p + [elm] + q
    {
      shape, lo, hi := t, lo', hi';
    }

    /** Adds elm in its place, or returns the element with its key and changes nothing. */
    method Insert(elm: Node) returns (dup: Node?, ghost p: seq<Node>, ghost q: seq<Node>)
      requires Valid()
      modifies this, cells.Keys, elm
      ensures Valid() && old(rotations) <= rotations <= old(rotations) + 2
      ensures old(comparisons) <= comparisons <= old(comparisons) + old(Height(shape))
      ensures dup != null ==> dup in Elements() && dup.key == elm.key
      ensures dup != null ==> unchanged(this`root, this`cells, this`shape, this`rotations) && unchanged(elm) && unchanged(old(cells.Keys))
      ensures dup == null ==> old(Elements()) == p + q && Elements() == p + [elm] + q
      ensures dup == null ==> elm !in old(cells.Keys) && cells.Keys == old(cells.Keys) + {elm}
    {
      var tmp, parent, comp := root, null, 0;
      ghost var lo', hi' := if lo < elm.key then lo else elm.key - 1, if elm.key < hi then hi else elm.key + 1;
      ghost var k, t := Top(lo', hi'), shape;
      ZipWider(cells, root, t, lo, hi, lo', hi');
      Look(k, t);
      while tmp != null
        invariant At(k, t) && Ptr(t) == tmp && Par(k) == parent && Lo(k) < elm.key < Hi(k)
        invariant Plug(k, t) == shape && Base(k) == Top(lo', hi') && (k.In? ==> (comp < 0 <==> k.side.L?))
        invariant old(comparisons) <= comparisons && comparisons + Height(t) <= old(comparisons) + Height(shape) && rotations == old(rotations)
        modifies this`comparisons
        decreases t
      {
        parent := tmp;
        comp := Compare(elm.key, parent.key);
        Descend(k, t, elm.key);
        if comp < 0 {
          tmp := tmp.left;
          k, t := In(L, k, t.color, t.node, t.right), t.left;
        } else if comp > 0 {
          tmp := tmp.right;
          k, t := In(R, k, t.color, t.node, t.left), t.right;
        } else {
          return tmp, [], [];
        }
      }
      p, q := Attach(elm, parent, comp, k);
      dup := null;
    }

    /** Finds the element with the key of elm. */
    method Find(elm: Node) returns (r: Node?)
      requires Valid()
      modifies this`comparisons
      ensures r != null ==> r in Elements() && r.key == elm.key
      ensures r == null ==> forall n :: n in Elements() ==> n.key != elm.key
      ensures Valid() && old(comparisons) <= comparisons <= old(comparisons) + Height(shape)
      ensures Pow2(comparisons - old(comparisons)) <= (|Elements()| + 1) * (|Elements()| + 1)
    {
      r := Search(elm);
      Pow2Monotone(comparisons - old(comparisons), Height(shape));
      HeightBound(shape);
    }

    /** The loop of RB_FIND. */
    method Search(elm: Node) returns (r: Node?)
      requires Valid()
      modifies this`comparisons
      ensures r != null ==> r in Elements() && r.key == elm.key
      ensures r == null ==> forall n :: n in Elements() ==> n.key != elm.key
      ensures old(comparisons) <= comparisons <= old(comparisons) + Height(shape)
    {
      var tmp := root;
      ghost var lo', hi' := if lo < elm.key then lo else elm.key - 1, if elm.key < hi then hi else elm.key + 1;
      ghost var k, t := Top(lo', hi'), shape;
      ZipWider(cells, root, t, lo, hi, lo', hi');
      Look(k, t);
      while tmp != null
        invariant At(k, t) && Ptr(t) == tmp && Lo(k) < elm.key < Hi(k) && Plug(k, t) == shape
        invariant old(comparisons) <= comparisons && comparisons + Height(t) <= old(comparisons) + Height(shape)
        decreases t
      {
        var comp := Compare(elm.key, tmp.key);
        Descend(k, t, elm.key);
        if comp < 0 {
          tmp := tmp.left;
          k, t := In(L, k, t.color, t.node, t.right), t.left;
        } else if comp > 0 {
          tmp := tmp.right;
          k, t := In(R, k, t.color, t.node, t.left), t.right;
        } else {
          return tmp;
        }
      }
      Absent(k, elm.key);
      r := null;
    }

    // ---------- RB_MINMAX, RB_NEXT, RB_FOREACH ----------

    /** The least element for val < 0, else the greatest. */
    method MinMax(val: int) returns (r: Node?)
      requires Valid()
      ensures r == null <==> Elements() == []
      ensures r != null ==> r == Elements()[if val < 0 then 0 else |Elements()| - 1]
    {
      var tmp, parent := root, null;
      ghost var d := if val < 0 then L else R;
      ghost var k, t := Top(lo, hi), shape;
      Look(k, t);
      while tmp != null
        invariant At(k, t) && Ptr(t) == tmp && Par(k) == parent && Plug(k, t) == shape && OneSided(k, d)
        decreases t
      {
        parent := tmp;
        ghost var k' := In(d, k, t.color, t.node, if val < 0 then t.right else t.left);
        ghost var t' := if val < 0 then t.left else t.right;
        Look(k, t);
        Move(k', t');
        if val < 0 {
          tmp := tmp.left;
        } else {
          tmp := tmp.right;
        }
        k, t := k', t';
      }
      OneSidedEnds(k, d);
      PlugInorder(k, t);
      r := parent;
    }

    /** The leftmost node below the focus. */
    method Leftmost(node: Node, ghost k0: Ctx, ghost t0: Tree) returns (r: Node, ghost k: Ctx, ghost t: Tree)
      requires At(k0, t0) && t0.Fork? && t0.node == node
      ensures At(k, t) && t.Fork? && t.node == r && t.left.Nil? && Plug(k, t) == Plug(k0, t0) && Before(k) == Before(k0)
    {
      r, k, t := node, k0, t0;
      Look(k, t);
      while r.left != null
        invariant At(k, t) && t.Fork? && t.node == r && r.left == Ptr(t.left)
        invariant Plug(k, t) == Plug(k0, t0) && Before(k) == Before(k0)
        decreases t
      {
        k, t := In(L, k, t.color, t.node, t.right), t.left;
        Move(k, t);
        r := r.left;
        Look(k, t);
      }
    }

    /** The first node above the focus that is reached from its left; null if there is none. */
    method Climb(node: Node, ghost k0: Ctx, ghost t0: Tree) returns (r: Node?)
      requires At(k0, t0) && t0.Fork? && t0.node == node
      ensures if After(k0) == [] then r == null else r == After(k0)[0]
    {
      var elm := node;
      ghost var k, t := k0, t0;
      Look(k, t);
      if elm.parent != null && elm == elm.parent.left {
        r := elm.parent;
      } else {
        while elm.parent != null && elm == elm.parent.right
          invariant At(k, t) && t.Fork? && t.node == elm && After(k) == After(k0)
          decreases Depth(k)
        {
          Look(k, t);
          Move(k, t);
          k, t := k.up, Mk(k.side, t, k.color, k.node, k.sibling);
          elm := elm.parent;
          Look(k, t);
        }
        Look(k, t);
        r := elm.parent;
      }
    }

    method NextFrom(elm: Node, ghost k: Ctx, ghost t: Tree) returns (r: Node?)
      requires At(k, t) && t.Fork? && t.node == elm
      ensures var q := Inorder(t.right) + After(k); r == if q == [] then null else q[0]
    {
      Look(k, t);
      if elm.right != null {
        ghost var kr := In(R, k, t.color, elm, t.left);
        Move(kr, t.right);
        ghost var k', t';
        Look(kr, t.right);
        r, k', t' := Leftmost(elm.right, kr, t.right);
        NextFirst(k, t, k', t');
      } else {
        r := Climb(elm, k, t);
      }
    }

    /** The element after elm, or null after the last; `i` is the position of elm. */
    method Next(elm: Node, ghost i: nat) returns (r: Node?)
      requires Valid() && i < |Elements()| && Elements()[i] == elm
      ensures r == if i + 1 < |Elements()| then Elements()[i + 1] else null
    {
      ghost var k, t := Enter(elm);
      ghost var p, q := ForkInorder(k, t);
      OnePosition(Elements(), Key, |p|, i);
      r := NextFrom(elm, k, t);
    }

    /** RB_FOREACH: the elements it visits, in the order it visits them. */
    method Foreach() returns (visited: seq<Node>)
      requires Valid()
      ensures visited == Elements()
    {
      visited := [];
      var x := MinMax(-1);
      while x != null
        invariant |visited| <= |Elements()| && visited == Elements()[..|visited|]
        invariant x == if |visited| < |Elements()| then Elements()[|visited|] else null
        decreases |Elements()| - |visited|
      {
        visited := visited + [x];
        x := Next(x, |visited| - 1);
      }
    }

    /** RB_INIT: an empty tree. */
    constructor ()
      ensures Valid() && Elements() == [] && cells.Keys == {}
    {
      root := null;
      cells, shape, lo, hi := map[], Nil, 0, 0;
      rotations, comparisons := 0, 0;
    }
  }
}
