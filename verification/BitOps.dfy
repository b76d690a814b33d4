/** The operators of C on unsigned values, bit by bit, and the bits of a byte buffer
    read with the most significant bit of each byte first. */
module BitOps {
  import opened Powers

  const UINT32: nat := 0x1_0000_0000

  newtype byte = x: int | 0 <= x < 0x100

  /** x >> n */
  function Shr(x: nat, n: nat): nat {
    if n == 0 then x else Shr(x / 2, n - 1)
  }

  /** x << n, before any truncation */
  function Shl(x: nat, n: nat): nat {
    if n == 0 then x else 2 * Shl(x, n - 1)
  }

  /** a & b */
  function And(a: nat, b: nat): nat {
    if a == 0 || b == 0 then 0
    else 2 * And(a / 2, b / 2) + if a % 2 == 1 && b % 2 == 1 then 1 else 0
  }

  /** a | b */
  function Or(a: nat, b: nat): nat {
    if a == 0 then b else if b == 0 then a
    else 2 * Or(a / 2, b / 2) + if a % 2 == 1 || b % 2 == 1 then 1 else 0
  }

  /** Bit j of x, counted from the least significant. */
  predicate Bit(x: nat, j: nat) {
    if j == 0 then x % 2 == 1 else Bit(x / 2, j - 1)
  }

  /** The n low bits of x. */
  ghost function Low(x: nat, n: nat): nat {
    if n == 0 then 0 else 2 * Low(x / 2, n - 1) + x % 2
  }

  ghost function Num(b: bool): nat {
    if b then 1 else 0
  }

  lemma {:induction false} LowShr(x: nat, n: nat)
    ensures x == Shr(x, n) * Pow2(n) + Low(x, n) && Low(x, n) < Pow2(n)
  {
    if n > 0 {
      LowShr(x / 2, n - 1);
      DoubleFactor(Shr(x / 2, n - 1), Pow2(n - 1));
    }
  }

  /** The low bits are the remainder, the shift the quotient. */
  lemma LowIsMod(x: nat, n: nat)
    ensures 0 < Pow2(n) && Low(x, n) == x % Pow2(n) && Shr(x, n) == x / Pow2(n)
  {
    LowShr(x, n);
    DivModUnique(x, Shr(x, n), Low(x, n), Pow2(n));
  }

  lemma DivModUnique(x: nat, q: nat, r: nat, d: nat)
    requires x == q * d + r && r < d
    ensures x / d == q && x % d == r
  {
    MultipleApart(d, x / d - q);
    assert d * (x / d - q) == r - x % d;
  }

  lemma MultipleApart(d: int, k: int)
    requires d >= 0
    ensures k >= 1 ==> d * k >= d
    ensures k <= -1 ==> d * k <= -d
  {
    if k >= 1 {
      assert d * k == d + d * (k - 1);
    } else if k <= -1 {
      assert d * k == -d - d * (-k - 1);
    }
  }

  lemma {:induction false} LowSmall(x: nat, n: nat)
    requires x < Pow2(n)
    ensures Low(x, n) == x
  {
    if n > 0 {
      LowSmall(x / 2, n - 1);
    }
  }

  lemma {:induction false} ShrBelow(x: nat, k: nat, n: nat)
    requires x < Pow2(k + n)
    ensures Shr(x, k) < Pow2(n)
  {
    if k > 0 {
      ShrBelow(x / 2, k - 1, n);
    }
  }

  lemma {:induction false} ShlIsTimes(x: nat, n: nat)
    ensures Shl(x, n) == x * Pow2(n)
  {
    if n > 0 {
      ShlIsTimes(x, n - 1);
      DoubleFactor(x, Pow2(n - 1));
    }
  }

  lemma {:induction false} ShlOne(n: nat)
    ensures Shl(1, n) == Pow2(n)
  {
    if n > 0 {
      ShlOne(n - 1);
    }
  }

  lemma {:induction false} ShlSmall(x: nat, m: nat, n: nat)
    requires x < Pow2(m)
    ensures Shl(x, n) < Pow2(m + n)
  {
    if n > 0 {
      ShlSmall(x, m, n - 1);
    }
  }

  lemma {:induction false} ShlAdd(x: nat, y: nat, n: nat)
    ensures Shl(x, n) + Shl(y, n) == Shl(x + y, n)
  {
    if n > 0 {
      ShlAdd(x, y, n - 1);
    }
  }

  lemma {:induction false} ShlZero(n: nat)
    ensures Shl(0, n) == 0
  {
    if n > 0 {
      ShlZero(n - 1);
    }
  }

  lemma {:induction false} ShlShl(x: nat, a: nat, b: nat)
    ensures Shl(Shl(x, a), b) == Shl(x, a + b)
  {
    if b > 0 {
      ShlShl(x, a, b - 1);
    }
  }

  lemma Pow2Values()
    ensures Pow2(8) == 0x100 && Pow2(16) == 0x1_0000 && Pow2(30) == 0x4000_0000 && Pow2(31) == 0x8000_0000 && Pow2(32) == 0x1_0000_0000
  {
    assert Pow2(8) == 0x100;
    Pow2Sum(8, 8);
    Pow2Sum(16, 8);
    assert Pow2(27) == 8 * Pow2(24) && Pow2(30) == 8 * Pow2(27) && Pow2(31) == 2 * Pow2(30) && Pow2(32) == 2 * Pow2(31);
  }

  /** Entry n of the table i_mask of bs_read: n ones. */
  function Mask(n: nat): nat {
    if n == 0 then 0 else 2 * Mask(n - 1) + 1
  }

  /** The table, as it is written out. */
  lemma MaskTable()
    ensures [Mask(0), Mask(1), Mask(2), Mask(3), Mask(4), Mask(5), Mask(6), Mask(7), Mask(8)] ==
            [0x00, 0x01, 0x03, 0x07, 0x0f, 0x1f, 0x3f, 0x7f, 0xff]
    ensures [Mask(9), Mask(10), Mask(11), Mask(12), Mask(13), Mask(14), Mask(15), Mask(16)] ==
            [0x1ff, 0x3ff, 0x7ff, 0xfff, 0x1fff, 0x3fff, 0x7fff, 0xffff]
    ensures [Mask(17), Mask(18), Mask(19), Mask(20), Mask(21), Mask(22), Mask(23), Mask(24)] ==
            [0x1ffff, 0x3ffff, 0x7ffff, 0xfffff, 0x1fffff, 0x3fffff, 0x7fffff, 0xffffff]
    ensures [Mask(25), Mask(26), Mask(27), Mask(28), Mask(29), Mask(30), Mask(31), Mask(32)] ==
            [0x1ffffff, 0x3ffffff, 0x7ffffff, 0xfffffff, 0x1fffffff, 0x3fffffff, 0x7fffffff, 0xffffffff]
  {
    assert Mask(8) == 0xff;
    assert Mask(16) == 0xffff;
    assert Mask(24) == 0xffffff;
  }

  lemma {:induction false} AndMask(x: nat, n: nat)
    ensures And(x, Mask(n)) == Low(x, n)
  {
    if n > 0 {
      AndMask(x / 2, n - 1);
      LowZero(n);
    }
  }

  lemma {:induction false} LowZero(n: nat)
    ensures Low(0, n) == 0
  {
    if n > 0 {
      LowZero(n - 1);
    }
  }

  /** Adding bits below the lowest bit set. */
  lemma {:induction false} OrDisjoint(a: nat, b: nat, n: nat)
    requires b < Pow2(n)
    ensures Or(Shl(a, n), b) == Shl(a, n) + b
  {
    if n > 0 {
      OrDisjoint(a, b / 2, n - 1);
      assert Shl(a, n) / 2 == Shl(a, n - 1);
    }
  }

  lemma Fits32(x: nat, n: nat)
    requires x < Pow2(n) && n <= 32
    ensures x % UINT32 == x
  {
    Pow2Monotone(n, 32);
    Pow2Values();
  }

  /** The same with the lower bits still to be followed by r more; nothing is lost to 32 bits. */
  lemma OrShifted(v: nat, c: nat, left: nat, r: nat)
    requires c < Pow2(left) && left + r <= 32
    ensures Or(Shl(v, left + r), Shl(c, r) % UINT32) == Shl(Shl(v, left) + c, r)
  {
    ShlSmall(c, left, r);
    Fits32(Shl(c, r), left + r);
    OrDisjoint(v, Shl(c, r), left + r);
    ShlShl(v, left, r);
    ShlAdd(Shl(v, left), c, r);
  }

  lemma {:induction false} OrBit(a: nat, b: nat, j: nat)
    ensures Bit(Or(a, b), j) <==> Bit(a, j) || Bit(b, j)
  {
    ZeroBit(j);
    if j > 0 && a != 0 && b != 0 {
      OrBit(a / 2, b / 2, j - 1);
    }
  }

  lemma {:induction false} AndBit(a: nat, b: nat, j: nat)
    ensures Bit(And(a, b), j) <==> Bit(a, j) && Bit(b, j)
  {
    ZeroBit(j);
    if j > 0 && a != 0 && b != 0 {
      AndBit(a / 2, b / 2, j - 1);
    }
  }

  lemma {:induction false} ZeroBit(j: nat)
    ensures !Bit(0, j)
  {
    if j > 0 {
      ZeroBit(j - 1);
    }
  }

  /** The only bit of 1 << k. */
  lemma {:induction false} OneBit(k: nat, j: nat)
    ensures Bit(Shl(1, k), j) <==> j == k
  {
    if k == 0 {
      if j > 0 {
        ZeroBit(j - 1);
      }
    } else if j > 0 {
      OneBit(k - 1, j - 1);
    }
  }

  /** Complementing the n low bits. */
  lemma {:induction false} NotBit(x: nat, n: nat, j: nat)
    requires x < Pow2(n) && j < n
    ensures Bit(Pow2(n) - 1 - x, j) <==> !Bit(x, j)
  {
    if j > 0 {
      NotBit(x / 2, n - 1, j - 1);
      assert (Pow2(n) - 1 - x) / 2 == Pow2(n - 1) - 1 - x / 2;
    }
  }

  lemma {:induction false} OrSmall(a: nat, b: nat, n: nat)
    requires a < Pow2(n) && b < Pow2(n)
    ensures Or(a, b) < Pow2(n)
  {
    if n > 0 {
      OrSmall(a / 2, b / 2, n - 1);
    }
  }

  lemma {:induction false} AndSmall(a: nat, b: nat)
    ensures And(a, b) <= a
  {
    if a != 0 && b != 0 {
      AndSmall(a / 2, b / 2);
    }
  }
}
