/** That syntax elements can be laid down at all: a buffer in which they stand, without a writer. */
module BitLayout {
  import opened Powers
  import opened BitOps
  import opened BitCursor
  import opened ExpGolomb

  /** The number the n bits of f from i spell. */
  ghost function Gathered(f: nat -> bool, i: nat, n: nat): nat {
    if n == 0 then 0 else 2 * Gathered(f, i, n - 1) + Num(f(i + n - 1))
  }

  lemma {:induction false} GatheredBit(f: nat -> bool, i: nat, n: nat, j: nat)
    requires j < n
    ensures Gathered(f, i, n) < Pow2(n) && (Bit(Gathered(f, i, n), j) <==> f(i + n - 1 - j))
  {
    GatheredSmall(f, i, n);
    if j > 0 {
      GatheredBit(f, i, n - 1, j - 1);
    }
  }

  lemma {:induction false} GatheredSmall(f: nat -> bool, i: nat, n: nat)
    ensures Gathered(f, i, n) < Pow2(n)
  {
    if n > 0 {
      GatheredSmall(f, i, n - 1);
    }
  }

  ghost function GatheredByte(f: nat -> bool, k: nat): byte {
    GatheredSmall(f, 8 * k, 8);
    Pow2Values();
    Gathered(f, 8 * k, 8) as byte
  }

  /** A buffer of n bytes with the bits of f. */
  ghost function Packed(f: nat -> bool, n: nat, wide: (nat, nat) -> int32): Stream {
    Stream(seq(n, k requires 0 <= k < n => GatheredByte(f, k)), wide)
  }

  lemma PackedAt(f: nat -> bool, n: nat, wide: (nat, nat) -> int32, i: nat)
    requires i < 8 * n
    ensures Packed(f, n, wide).At(i) <==> f(i)
  {
    GatheredBit(f, 8 * (i / 8), 8, 7 - i % 8);
    assert 8 * (i / 8) + 8 - 1 - (7 - i % 8) == i;
    assert Packed(f, n, wide).bytes[i / 8] == GatheredByte(f, i / 8);
  }

  /** s with the n low bits of v from bit i on. */
  ghost function Over(s: Stream, i: nat, n: nat, v: nat): Stream {
    Packed((k: nat) => OverBit(s, i, n, v, k), |s.bytes|, s.wide)
  }

  ghost predicate OverBit(s: Stream, i: nat, n: nat, v: nat, k: nat) {
    if i <= k < i + n then Bit(v, n - 1 - (k - i)) else s.At(k)
  }

  lemma OverLaid(s: Stream, i: nat, n: nat, v: nat)
    ensures Laid(s, Over(s, i, n, v), i, n, v)
  {
    var f := (k: nat) => OverBit(s, i, n, v, k);
    forall k: nat | k < s.Size()
      ensures Over(s, i, n, v).At(k) <==> OverBit(s, i, n, v, k)
    {
      PackedAt(f, |s.bytes|, s.wide, k);
    }
  }

  lemma LaidDown(s: Stream, i: nat, n: nat, v: nat) returns (s': Stream)
    ensures Laid(s, s', i, n, v)
  {
    s' := Over(s, i, n, v);
    OverLaid(s, i, n, v);
  }

  lemma ItemLayable(s: Stream, i: nat, x: Item) returns (s': Stream)
    requires Fits(x) && i + Length(x) <= s.Size()
    ensures Here(s', i, x) && SameElsewhere(s, s', i, i + Length(x))
  {
    if x.U? {
      s' := LaidDown(s, i, x.n, x.bits);
    } else {
      s' := UeLayable(s, i, if x.Ue? then x.num else CodeNum(x.val));
    }
  }

  lemma UeLayable(s: Stream, i: nat, v: nat) returns (s': Stream)
    requires Fits(Ue(v)) && i + Length(Ue(v)) <= s.Size()
    ensures UeHere(s', i, v) && SameElsewhere(s, s', i, i + Length(Ue(v)))
  {
    var z := Prefix(v + 1);
    var s1 := LaidDown(s, i, z, 0);
    s' := LaidDown(s1, i + z, z + 1, v + 1);
    UeWritten(s, s1, s', i, v);
  }

  lemma {:induction false} Layable(s: Stream, i: nat, xs: Items) returns (s': Stream, end: nat)
    requires AllFit(xs) && i + Before(xs, Count(xs)) <= s.Size()
    ensures Stands(s', i, xs, end) && SameElsewhere(s, s', i, end) && i <= end
    decreases xs
  {
    if xs.End? {
      s', end := s, i;
    } else {
      var s1 := ItemLayable(s, i, xs.item);
      var j := i + Length(xs.item);
      s', end := Layable(s1, j, xs.rest);
      HereStays(s1, s', i, xs.item, j, end);
      SameTwice(s, s1, s', i, j, end);
      StandsThen(s', i, xs.item, xs.rest, end);
    }
  }

  /** Any elements in range stand in some buffer. */
  lemma SomewhereStands(xs: Items, wide: (nat, nat) -> int32) returns (s: Stream, end: nat)
    requires AllFit(xs)
    ensures Stands(s, 0, xs, end)
  {
    var n := Before(xs, Count(xs));
    s, end := Layable(Stream(seq(n, _ => 0), wide), 0, xs);
  }
}
