/** Any run of operations on a tree of _Include/tree.h, starting from an empty one, is the run on a set of keys. */
module RedBlackRuns {
  import opened Powers
  import opened RedBlackShape
  import opened RedBlackTree
  import opened KeySets

  ghost function KeySet(s: seq<Node>): set<int> {
    Keys(s, Key)
  }

  /** `found` tells whether the key was there. */
  method Step(h: Head, op: Op) returns (found: bool)
    requires h.Valid()
    modifies h, h.cells.Keys
    ensures h.Valid() && fresh(h.cells.Keys - old(h.cells.Keys))
    ensures found == (op.key in old(KeySet(h.Elements()))) && KeySet(h.Elements()) == Apply(old(KeySet(h.Elements())), op)
  {
    var elm := new Node(op.key);
    match op {
      case Insert(_) => found := InsertStep(h, elm);
      case Remove(_) => found := RemoveStep(h, elm);
      case Find(_) =>
        var r := h.Find(elm);
        found := r != null;
    }
  }

  method InsertStep(h: Head, elm: Node) returns (found: bool)
    requires h.Valid()
    modifies h, h.cells.Keys, elm
    ensures h.Valid() && h.cells.Keys <= old(h.cells.Keys) + {elm}
    ensures found == (elm.key in old(KeySet(h.Elements()))) && KeySet(h.Elements()) == old(KeySet(h.Elements())) + {elm.key}
  {
    ghost var p, q;
    var dup;
    dup, p, q := h.Insert(elm);
    if dup == null {
      InorderAscending(h.shape, h.lo, h.hi);
      OneKey(p, elm, q, Key);
    }
    found := dup != null;
  }

  /** RB_REMOVE is for an element of the tree: RB_FIND comes first. */
  method RemoveStep(h: Head, elm: Node) returns (found: bool)
    requires h.Valid()
    modifies h, h.cells.Keys
    ensures h.Valid() && h.cells.Keys <= old(h.cells.Keys)
    ensures found == (elm.key in old(KeySet(h.Elements()))) && KeySet(h.Elements()) == old(KeySet(h.Elements())) - {elm.key}
  {
    ghost var p, q;
    var removed;
    var node := h.Find(elm);
    if node != null {
      InorderAscending(h.shape, h.lo, h.hi);
      removed, p, q := h.Remove(node);
      ghost var gone: Node := node;
      OneKey(p, gone, q, Key);
    }
    found := node != null;
  }

  /** One more operation of the run. */
  method Advance(h: Head, ops: seq<Op>, found: seq<bool>) returns (found': seq<bool>)
    requires h.Valid() && Answers(ops, found) && |found| < |ops| && KeySet(h.Elements()) == AfterOps(ops, |found|)
    modifies h, h.cells.Keys
    ensures h.Valid() && fresh(h.cells.Keys - old(h.cells.Keys))
    ensures |found'| == |found| + 1 && Answers(ops, found') && KeySet(h.Elements()) == AfterOps(ops, |found'|)
  {
    var b := Step(h, ops[|found|]);
    OneMore(ops, found, b);
    found' := found + [b];
  }

  /** Every run from an empty tree. */
  method Run(ops: seq<Op>) returns (h: Head, found: seq<bool>)
    ensures h.Valid() && KeySet(h.Elements()) == AfterOps(ops, |ops|)
    ensures |found| == |ops| && Answers(ops, found)
  {
    h := new Head();
    found := [];
    while |found| < |ops|
      invariant fresh(h) && fresh(h.cells.Keys) && h.Valid()
      invariant Answers(ops, found) && KeySet(h.Elements()) == AfterOps(ops, |found|)
      decreases |ops| - |found|
    {
      found := Advance(h, ops, found);
    }
  }

  /** The height of a tree of n elements is at most 2 lg(n + 1). */
  ghost predicate Low(t: Tree, n: nat) {
    Pow2(Height(t)) <= (n + 1) * (n + 1)
  }

  method RunHeight(ops: seq<Op>) returns (h: Head, found: seq<bool>)
    ensures h.Valid() && KeySet(h.Elements()) == AfterOps(ops, |ops|) && Low(h.shape, |AfterOps(ops, |ops|)|)
  {
    h, found := Run(ops);
    ghost var s := AfterOps(ops, |ops|);
    KeysHeight(h.shape, h.lo, h.hi, s);
  }

  lemma KeysHeight(t: Tree, lo: int, hi: int, s: set<int>)
    requires RedBlack(t) && Ordered(t, lo, hi) && KeySet(Inorder(t)) == s
    ensures Low(t, |s|)
  {
    HeightBound(t);
    InorderAscending(t, lo, hi);
    KeysCount(Inorder(t), Key);
  }
}
