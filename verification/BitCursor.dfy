/** What reading a bit buffer means: the buffer is an unending row of bits, zero past its
    end, and a cursor is a number of bits. The loops of vlc_bits.h are proved against
    these functions in BitStream. */
module BitCursor {
  import opened Powers
  import opened BitOps

  newtype int32 = x: int | -0x8000_0000 <= x < 0x8000_0000

  /** Two's complement wrap-around to 32 bits. */
  function Wrap(x: int): (r: int)
    ensures -0x8000_0000 <= r < 0x8000_0000
    decreases if x < 0 then -x - 1 else x
  {
    if x >= 0x8000_0000 then Wrap(x - UINT32)
    else if x < -0x8000_0000 then Wrap(x + UINT32)
    else x
  }

  /** The bytes of a buffer, and what the compiled `(1 << i) - 1 + bits` yields for i >= 31,
      where the language leaves it open: a value for every i and every i-bit number read. */
  datatype Stream = Stream(bytes: seq<byte>, wide: (nat, nat) -> int32)
  {
    /** The number of bits. */
    function Size(): nat {
      8 * |bytes|
    }

    ghost predicate At(i: nat) {
      i < Size() && Bit(bytes[i / 8] as nat, 7 - i % 8)
    }

    /** The number written in the n bits from i, most significant bit first; missing bits count as zero. */
    ghost function Value(i: nat, n: nat): nat {
      if n == 0 then 0 else 2 * Value(i, n - 1) + Num(At(i + n - 1))
    }

    /** Where a read of n bits leaves the cursor: at the end of the buffer at most, and no further if it is past it. */
    ghost function Past(i: nat, n: nat): nat {
      if i >= Size() then i else if i + n <= Size() then i + n else Size()
    }

    /** The loop of bs_read_ue reads a zero at i, is not at the end then, and has counted less than 32. */
    ghost predicate GoesOn(i: nat, k: nat) {
      !At(i) && Past(i, 1) < Size() && k < 32
    }

    /** The zeros that loop has counted when it ends, going on from i with `k` of them. */
    ghost function Zeros(i: nat, k: nat): nat
      decreases 32 - k, i
    {
      if GoesOn(i, k) then Zeros(Past(i, 1), k + 1) else k
    }

    /** The cursor when it ends. */
    ghost function Stop(i: nat, k: nat): nat
      decreases 32 - k, i
    {
      if GoesOn(i, k) then Stop(Past(i, 1), k + 1) else Past(i, 1)
    }

    /** What bs_read_ue returns, read from i. */
    ghost function Ue(i: nat): int {
      var k := Zeros(i, 0);
      var low := Value(Stop(i, 0), k);
      if k <= 30 then Pow2(k) - 1 + low else wide(k, low) as int
    }

    /** The cursor after bs_read_ue, or bs_read_se. */
    ghost function PastUe(i: nat): nat {
      Past(Stop(i, 0), Zeros(i, 0))
    }

    ghost function Se(i: nat): int {
      SeValue(Ue(i))
    }
  }

  /** Integer division as C does it, toward zero. */
  function Half(x: int): int {
    if x >= 0 then x / 2 else -(-x / 2)
  }

  /** val & 1 ? (val + 1) / 2 : -(val / 2) */
  function SeValue(v: int): int {
    if v % 2 == 1 then Half(Wrap(v + 1)) else -Half(v)
  }

  lemma {:induction false} ValueSmall(s: Stream, i: nat, n: nat)
    ensures s.Value(i, n) < Pow2(n)
  {
    if n > 0 {
      ValueSmall(s, i, n - 1);
    }
  }

  /** Reading a + b bits is reading a bits and then b bits. */
  lemma {:induction false} ValueSplit(s: Stream, i: nat, a: nat, b: nat)
    ensures s.Value(i, a + b) == Shl(s.Value(i, a), b) + s.Value(i + a, b)
    decreases b
  {
    if b > 0 {
      ValueSplit(s, i, a, b - 1);
    }
  }

  lemma {:induction false} ValuePastEnd(s: Stream, i: nat, n: nat)
    requires i >= s.Size()
    ensures s.Value(i, n) == 0
  {
    if n > 0 {
      ValuePastEnd(s, i, n - 1);
    }
  }

  lemma {:induction false} ShrBit(x: nat, k: nat, j: nat)
    ensures Bit(Shr(x, k), j) <==> Bit(x, k + j)
  {
    if k > 0 {
      ShrBit(x / 2, k - 1, j);
    }
  }

  lemma {:induction false} ShrStep(x: nat, k: nat)
    ensures Shr(x, k + 1) == Shr(x, k) / 2
  {
    if k > 0 {
      ShrStep(x / 2, k - 1);
    }
  }

  /** One chunk: n bits of the byte at p, of which `left` are still unread. */
  lemma {:induction false} ChunkValue(s: Stream, p: nat, left: nat, n: nat)
    requires p < |s.bytes| && n <= left && 1 <= left <= 8
    ensures s.Value(8 * p + 8 - left, n) == Low(Shr(s.bytes[p] as nat, left - n), n)
  {
    if n > 0 {
      var b, i := s.bytes[p] as nat, 8 * p + 8 - left;
      ChunkValue(s, p, left, n - 1);
      ShrStep(b, left - n);
      ShrBit(b, left - n, 0);
      assert (i + n - 1) / 8 == p && 7 - (i + n - 1) % 8 == left - n;
    }
  }

  /** The chunk that completes a read of done + count bits. */
  lemma LastChunk(s: Stream, i: nat, done: nat, count: nat, p: nat, left: nat)
    requires p < |s.bytes| && 1 <= count <= left <= 8 && i + done == 8 * p + 8 - left
    ensures Or(Shl(s.Value(i, done), count), And(Shr(s.bytes[p] as nat, left - count), Mask(count))) == s.Value(i, done + count)
  {
    AndMask(Shr(s.bytes[p] as nat, left - count), count);
    ChunkValue(s, p, left, count);
    ValueSmall(s, i + done, count);
    OrDisjoint(s.Value(i, done), s.Value(i + done, count), count);
    ValueSplit(s, i, done, count);
  }

  /** A chunk that takes all that is left of a byte, with more to come. */
  lemma FullChunk(s: Stream, i: nat, done: nat, count: nat, p: nat, left: nat)
    requires p < |s.bytes| && 1 <= left <= 8 && left < count <= 32 && i + done == 8 * p + 8 - left
    ensures Or(Shl(s.Value(i, done), count), Shl(And(s.bytes[p] as nat, Mask(left)), count - left) % UINT32)
         == Shl(s.Value(i, done + left), count - left)
  {
    AndMask(s.bytes[p] as nat, left);
    ChunkValue(s, p, left, left);
    ValueSmall(s, i + done, left);
    OrShifted(s.Value(i, done), s.Value(i + done, left), left, count - left);
    ValueSplit(s, i, done, left);
  }

  /** A read that reaches the end of the buffer: the bits that are missing are zero. */
  lemma ShortRead(s: Stream, i: nat, done: nat, n: nat)
    requires done <= n && i + done >= s.Size()
    ensures Shl(s.Value(i, done), n - done) == s.Value(i, n)
  {
    ValueSplit(s, i, done, n - done);
    ValuePastEnd(s, i + done, n - done);
  }

  /** (x >> k) & 1 */
  lemma ShiftedBit(x: nat, k: nat)
    ensures And(Shr(x, k), 0x01) == Num(Bit(x, k))
  {
    ShrBit(x, k, 0);
    AndMask(Shr(x, k), 1);
    assert Mask(1) == 1;
    assert Low(Shr(x, k), 1) == 2 * Low(Shr(x, k) / 2, 0) + Shr(x, k) % 2;
  }

  /** The next bit of the byte at p. */
  lemma NextBit(s: Stream, p: nat, left: nat)
    requires p < |s.bytes| && 1 <= left <= 8
    ensures And(Shr(s.bytes[p] as nat, left - 1), 0x01) == Num(s.At(8 * p + 8 - left))
  {
    var i := 8 * p + 8 - left;
    assert i / 8 == p && 7 - i % 8 == left - 1;
    ShiftedBit(s.bytes[p] as nat, left - 1);
  }

  /** A byte that is read whole is the number it is, and bits are taken from its top. */
  lemma {:induction false} ByteValue(s: Stream, k: nat, n: nat)
    requires k < |s.bytes| && n <= 8
    ensures 0 < Pow2(8 - n) && s.Value(8 * k, n) == s.bytes[k] as nat / Pow2(8 - n)
  {
    ChunkValue(s, k, 8, n);
    var b := s.bytes[k] as nat;
    LowIsMod(b, 8 - n);
    ShrBelow(b, 8 - n, n);
    Pow2Values();
    LowSmall(Shr(b, 8 - n), n);
  }

  // ---------- one read or several ----------

  /** The cursor after n calls of bs_read1 from i. */
  ghost function AfterReads1(s: Stream, i: nat, n: nat): nat {
    if n == 0 then i else s.Past(AfterReads1(s, i, n - 1), 1)
  }

  /** What they return, the first most significant. */
  ghost function Reads1(s: Stream, i: nat, n: nat): nat {
    if n == 0 then 0 else 2 * Reads1(s, i, n - 1) + Num(s.At(AfterReads1(s, i, n - 1)))
  }

  /** bs_read of n bits is n calls of bs_read1, also where the buffer ends in between. */
  lemma {:induction false} ReadIsReads1(s: Stream, i: nat, n: nat)
    ensures s.Value(i, n) == Reads1(s, i, n) && s.Past(i, n) == AfterReads1(s, i, n)
  {
    if n > 0 {
      ReadIsReads1(s, i, n - 1);
    }
  }

  /** bs_read of a + b bits is bs_read of a bits and then of b bits, also where the buffer ends in between. */
  lemma ReadInTwo(s: Stream, i: nat, a: nat, b: nat)
    ensures s.Value(i, a + b) == Shl(s.Value(i, a), b) + s.Value(s.Past(i, a), b)
    ensures s.Past(i, a + b) == s.Past(s.Past(i, a), b)
  {
    ValueSplit(s, i, a, b);
    if i + a > s.Size() {
      ValuePastEnd(s, i + a, b);
      ValuePastEnd(s, s.Past(i, a), b);
    }
  }

  /** bs_skip goes where bs_read goes if and only if the bits are there. */
  lemma SkipIsRead(s: Stream, i: nat, n: nat)
    ensures i + n == s.Past(i, n) <==> n == 0 || i + n <= s.Size()
  {
  }

  // ---------- writing ----------

  /** The buffer s with the `n` bits of v, most significant first, laid down from i, as far as they fit. */
  ghost predicate Laid(s: Stream, s': Stream, i: nat, n: nat, v: nat) {
    && s'.Size() == s.Size() && s'.wide == s.wide
    && forall k: nat :: k < s.Size() ==> (s'.At(k) <==> if i <= k < i + n then Bit(v, n - 1 - (k - i)) else s.At(k))
  }

  /** The n bits from i spell the low bits of v. */
  ghost predicate Spelled(s: Stream, i: nat, n: nat, v: nat) {
    i + n <= s.Size() && forall j: nat :: i <= j < i + n ==> (s.At(j) <==> Bit(v, n - 1 - (j - i)))
  }

  lemma {:induction false} SpelledValue(s: Stream, i: nat, n: nat, v: nat, m: nat)
    requires Spelled(s, i, n, v) && m <= n
    ensures s.Value(i, m) == Low(Shr(v, n - m), m)
  {
    if m > 0 {
      SpelledValue(s, i, n, v, m - 1);
      ShrStep(v, n - m);
      ShrBit(v, n - m, 0);
      assert s.At(i + (m - 1)) <==> Bit(v, n - m);
    }
  }

  /** bs_write and then bs_read of the same number of bits: the number modulo 2^n. */
  lemma WriteThenRead(s: Stream, s': Stream, i: nat, n: nat, v: nat)
    requires Laid(s, s', i, n, v) && i + n <= s.Size()
    ensures 0 < Pow2(n) && s'.Value(i, n) == v % Pow2(n)
    ensures s'.Past(i, n) == i + n
  {
    assert Spelled(s', i, n, v);
    SpelledValue(s', i, n, v, n);
    LowIsMod(v, n);
  }

  /** Setting bit left - 1 of the byte at p to b. */
  ghost predicate BitSet(s: Stream, s': Stream, i: nat, b: bool) {
    && s'.Size() == s.Size() && s'.wide == s.wide
    && forall k: nat :: k < s.Size() ==> (s'.At(k) <==> if k == i then b else s.At(k))
  }

  lemma LaidOneMore(s: Stream, s1: Stream, s2: Stream, i: nat, n: nat, m: nat, v: nat)
    requires m < n && Laid(s, s1, i, m, Shr(v, n - m)) && BitSet(s1, s2, i + m, Bit(v, n - m - 1))
    ensures Laid(s, s2, i, m + 1, Shr(v, n - m - 1))
  {
    forall k: nat | k < s.Size()
      ensures s2.At(k) <==> if i <= k < i + m + 1 then Bit(Shr(v, n - m - 1), m - (k - i)) else s.At(k)
    {
      if i <= k < i + m {
        ShrBit(v, n - m, m - 1 - (k - i));
        ShrBit(v, n - m - 1, m - (k - i));
      } else if k == i + m {
        ShrBit(v, n - m - 1, 0);
      }
    }
  }

  /** ~(1 << k), on a byte. */
  function AllBut(k: nat): (r: nat)
    requires k < 8
    ensures r == 0xFF - Shl(1, k)
  {
    ShlSmall(1, 1, k);
    Pow2Monotone(k + 1, 8);
    Pow2Values();
    0xFF - Shl(1, k)
  }

  /** The results still are bytes. */
  lemma ByteSizes(x: byte, k: nat)
    requires k < 8
    ensures Or(x as nat, Shl(1, k)) < 0x100 && And(x as nat, AllBut(k)) < 0x100
  {
    Pow2Values();
    OrSmall(x as nat, Shl(1, k), 8);
    AndSmall(x as nat, AllBut(k));
  }

  lemma ByteBits(x: byte, k: nat, j: nat, b: bool)
    requires k < 8 && j < 8
    ensures Bit(if b then Or(x as nat, Shl(1, k)) else And(x as nat, AllBut(k)), j) <==> if j == k then b else Bit(x as nat, j)
  {
    OneBit(k, j);
    Pow2Values();
    if b {
      OrBit(x as nat, Shl(1, k), j);
    } else {
      AndBit(x as nat, AllBut(k), j);
      NotBit(Shl(1, k), 8, j);
    }
  }

  lemma ByteBitSet(s: Stream, s': Stream, p: nat, left: nat, b: bool)
    requires p < |s.bytes| && 1 <= left <= 8 && |s'.bytes| == |s.bytes| && s'.wide == s.wide
    requires forall k: nat :: k < |s.bytes| && k != p ==> s'.bytes[k] == s.bytes[k]
    requires s'.bytes[p] as nat == if b then Or(s.bytes[p] as nat, Shl(1, left - 1)) else And(s.bytes[p] as nat, AllBut(left - 1))
    ensures BitSet(s, s', 8 * p + 8 - left, b)
  {
    forall k: nat | k < s.Size()
      ensures s'.At(k) <==> if k == 8 * p + 8 - left then b else s.At(k)
    {
      if k / 8 == p {
        ByteBits(s.bytes[p], left - 1, 7 - k % 8, b);
      }
    }
  }

  /** All n bits are laid down, or all there is room for. */
  lemma LaidAll(s: Stream, s': Stream, i: nat, n: nat, m: nat, v: nat)
    requires m <= n && Laid(s, s', i, m, Shr(v, n - m)) && (m == n || i + m >= s.Size())
    ensures Laid(s, s', i, n, v)
  {
    forall k: nat | k < s.Size() && i <= k < i + m
      ensures s'.At(k) <==> Bit(v, n - 1 - (k - i))
    {
      ShrBit(v, n - m, m - 1 - (k - i));
    }
  }

  lemma {:induction false} LowOnes(j: nat)
    requires j < 8
    ensures Bit(0xFF, j)
  {
    OnesBit(8, j);
    assert Mask(8) == 0xFF;
  }

  lemma {:induction false} OnesBit(n: nat, j: nat)
    requires j < n
    ensures Bit(Mask(n), j)
  {
    if j > 0 {
      OnesBit(n - 1, j - 1);
    }
  }

  lemma OnesLaid(s: Stream, s1: Stream, s2: Stream, i: nat, m: nat)
    requires m < 8 && Laid(s, s1, i, m, 0xFF) && Laid(s1, s2, i + m, 1, 1)
    ensures Laid(s, s2, i, m + 1, 0xFF)
  {
    forall j: nat | j < 8
      ensures Bit(0xFF, j)
    {
      LowOnes(j);
    }
  }

  // ---------- onward ----------

  /** j is not before i, and not past the end of the buffer by more than i was, or by `over` bits. */
  ghost predicate Onward(s: Stream, i: nat, j: nat, over: nat) {
    i <= j && (j <= i + over || j <= s.Size() + over)
  }

  lemma {:induction false} StopOnward(s: Stream, i: nat, k: nat)
    ensures Onward(s, i, s.Stop(i, k), 0)
    decreases 32 - k
  {
    if s.GoesOn(i, k) {
      StopOnward(s, s.Past(i, 1), k + 1);
    }
  }

  /** The cursor after bs_read_ue. */
  lemma UeOnward(s: Stream, i: nat)
    ensures Onward(s, i, s.PastUe(i), 0)
  {
    StopOnward(s, i, 0);
  }
}
