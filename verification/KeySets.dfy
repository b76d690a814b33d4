/** Insertion, removal and search on a set of keys. */
module KeySets {
  datatype Op = Insert(key: int) | Remove(key: int) | Find(key: int)

  function Apply(s: set<int>, op: Op): set<int> {
    match op
    case Insert(k) => s + {k}
    case Remove(k) => s - {k}
    case Find(_) => s
  }

  /** The set after the first n operations on an empty one. */
  function AfterOps(ops: seq<Op>, n: nat): set<int>
    requires n <= |ops|
  {
    if n == 0 then {} else Apply(AfterOps(ops, n - 1), ops[n - 1])
  }

  /** The answers to the first operations: whether the key was in the set then. */
  ghost predicate Answers(ops: seq<Op>, found: seq<bool>) {
    |found| <= |ops| && forall i :: 0 <= i < |found| ==> found[i] == (ops[i].key in AfterOps(ops, i))
  }

  lemma OneMore(ops: seq<Op>, found: seq<bool>, b: bool)
    requires Answers(ops, found) && |found| < |ops| && b == (ops[|found|].key in AfterOps(ops, |found|))
    ensures Answers(ops, found + [b])
    ensures AfterOps(ops, |found| + 1) == Apply(AfterOps(ops, |found|), ops[|found|])
  {
  }

  // ---------- the keys of a sequence of elements ----------

  ghost function Keys<T>(s: seq<T>, key: T -> int): set<int> {
    set x | x in s :: key(x)
  }

  ghost predicate Sorted<T>(s: seq<T>, key: T -> int) {
    forall i, j :: 0 <= i < j < |s| ==> key(s[i]) < key(s[j])
  }

  lemma KeysWith<T>(p: seq<T>, x: T, q: seq<T>, key: T -> int)
    ensures Keys(p + [x] + q, key) == Keys(p + q, key) + {key(x)}
  {
    assert forall n :: n in p + [x] + q <==> n in p + q || n == x;
  }

  /** An element that goes takes exactly its key out of the set. */
  lemma KeysWithout<T>(p: seq<T>, x: T, q: seq<T>, key: T -> int)
    requires Sorted(p + [x] + q, key)
    ensures Keys(p + q, key) == Keys(p + [x] + q, key) - {key(x)}
  {
    var s := p + [x] + q;
    KeysWith(p, x, q, key);
    assert s[|p|] == x;
    forall n | n in p + q
      ensures key(n) != key(x)
    {
      var i :| 0 <= i < |p + q| && (p + q)[i] == n;
      assert n == if i < |p| then s[i] else s[i + 1];
    }
  }

  /** An element with its key more or less. */
  lemma OneKey<T>(p: seq<T>, x: T, q: seq<T>, key: T -> int)
    requires Sorted(p + [x] + q, key)
    ensures Keys(p + [x] + q, key) == Keys(p + q, key) + {key(x)} && key(x) !in Keys(p + q, key)
  {
    KeysWith(p, x, q, key);
    KeysWithout(p, x, q, key);
  }

  lemma OnePosition<T>(s: seq<T>, key: T -> int, i: nat, j: nat)
    requires Sorted(s, key) && i < |s| && j < |s| && s[i] == s[j]
    ensures i == j
  {
  }

  lemma SortedApart<T>(p: seq<T>, x: T, q: seq<T>, key: T -> int)
    requires Sorted(p + [x] + q, key)
    ensures x !in p + q
  {
    KeysWithout(p, x, q, key);
    assert key(x) !in Keys(p + q, key);
  }

  lemma Associate<T>(a: seq<T>, b: seq<T>, c: seq<T>)
    ensures a + b + c == a + (b + c)
  {
  }

  lemma {:induction false} KeysCount<T>(s: seq<T>, key: T -> int)
    requires Sorted(s, key)
    ensures |Keys(s, key)| == |s|
  {
    if s != [] {
      var x, r := s[0], s[1..];
      KeysCount(r, key);
      assert s == [] + [x] + r && [] + r == r;
      KeysWithout([], x, r, key);
      assert key(x) in Keys(s, key);
    }
  }
}
