/** The descriptors u(n), ue(v) and se(v) of ITU-T H.264 as the standard writes them
    (clauses 7.2, 9.1 and 9.1.1), and that vlc_bits.h reads them back. */
module ExpGolomb {
  import opened Powers
  import opened BitOps
  import opened BitCursor

  datatype Item = U(n: nat, bits: nat) | Ue(num: nat) | Se(val: int)

  /** Syntax elements one after the other. */
  datatype Items = End | Then(item: Item, rest: Items)

  /** The leading zeros of the code word of x - 1: x has this many binary digits after the first. */
  function Prefix(x: nat): nat
    requires x > 0
  {
    if x == 1 then 0 else 1 + Prefix(x / 2)
  }

  lemma {:induction false} PrefixBounds(x: nat)
    requires x > 0
    ensures Pow2(Prefix(x)) <= x < Pow2(Prefix(x) + 1)
  {
    if x > 1 {
      PrefixBounds(x / 2);
    }
  }

  /** What x = v + 1 is above the power of two, the suffix of the code word. */
  ghost function Suffix(x: nat): (w: nat)
    requires x > 0
    ensures x == Pow2(Prefix(x)) + w && w < Pow2(Prefix(x))
  {
    PrefixBounds(x);
    x - Pow2(Prefix(x))
  }

  /** The code number of a signed value: 1, -1, 2, -2 and so on from 1. */
  function CodeNum(v: int): nat {
    if v > 0 then 2 * v - 1 else -2 * v
  }

  /** The elements of the standard: code numbers up to 2^32 - 2. */
  predicate Fits(x: Item) {
    match x
    case U(n, v) => n <= 32 && v < Pow2(n)
    case Ue(v) => Prefix(v + 1) <= 31
    case Se(v) => Prefix(CodeNum(v) + 1) <= 31
  }

  /** A code number with at most 30 leading zeros, which bs_read_ue can return. From 31 on its value is open. */
  predicate Exact(v: nat) {
    v < 0x7FFF_FFFF
  }

  predicate ItemExact(x: Item) {
    match x
    case U(_, _) => true
    case Ue(v) => Exact(v)
    case Se(v) => Exact(CodeNum(v))
  }

  function Length(x: Item): nat {
    match x
    case U(n, _) => n
    case Ue(v) => 2 * Prefix(v + 1) + 1
    case Se(v) => 2 * Prefix(CodeNum(v) + 1) + 1
  }

  /** Zeros, a one, and as many bits again that tell what v + 1 is above the power of two. */
  ghost predicate UeHere(s: Stream, i: nat, v: nat) {
    CodeWord(s, i, Prefix(v + 1), Suffix(v + 1))
  }

  ghost predicate CodeWord(s: Stream, i: nat, z: nat, w: nat) {
    z <= 31 && Zeros(s, i, z) && s.At(i + z) && Spelled(s, i + z + 1, z, w)
  }

  ghost predicate Zeros(s: Stream, i: nat, z: nat) {
    forall j: nat :: i <= j < i + z ==> !s.At(j)
  }

  /** The element stands at bit i. */
  ghost predicate Here(s: Stream, i: nat, x: Item) {
    match x
    case U(n, v) => n <= 32 && v < Pow2(n) && Spelled(s, i, n, v)
    case Ue(v) => UeHere(s, i, v)
    case Se(v) => UeHere(s, i, CodeNum(v))
  }

  function Count(xs: Items): nat {
    match xs
    case End => 0
    case Then(_, rest) => 1 + Count(rest)
  }

  function Nth(xs: Items, n: nat): Item
    requires n < Count(xs)
  {
    if n == 0 then xs.item else Nth(xs.rest, n - 1)
  }

  /** The length of the first n elements. */
  function Before(xs: Items, n: nat): nat
    requires n <= Count(xs)
  {
    if n == 0 then 0 else Length(xs.item) + Before(xs.rest, n - 1)
  }

  /** The elements stand one after the other from bit i, and the last one ends at bit `end`. */
  ghost predicate Stands(s: Stream, i: nat, xs: Items, end: nat) {
    forall n: nat :: n <= Count(xs) ==> StandsAt(s, i, xs, end, n)
  }

  ghost predicate StandsAt(s: Stream, i: nat, xs: Items, end: nat, n: nat)
    requires n <= Count(xs)
  {
    if n == Count(xs) then i + Before(xs, n) == end else Here(s, i + Before(xs, n), Nth(xs, n))
  }

  predicate AllFit(xs: Items) {
    match xs
    case End => true
    case Then(x, rest) => Fits(x) && AllFit(rest)
  }

  // ---------- reading ----------

  lemma ReadsU(s: Stream, i: nat, n: nat, v: nat)
    requires Here(s, i, U(n, v))
    ensures s.Value(i, n) == v && s.Past(i, n) == i + n
  {
    SpelledValue(s, i, n, v, n);
    LowSmall(v, n);
  }

  lemma {:induction false} CountsZeros(s: Stream, i: nat, k: nat, z: nat)
    requires k + z < 32 && s.At(i + z) && Zeros(s, i, z)
    ensures s.Zeros(i, k) == k + z && s.Stop(i, k) == i + z + 1
    decreases z
  {
    if z > 0 {
      assert !s.At(i);
      CountsZeros(s, i + 1, k + 1, z - 1);
    }
  }

  lemma ReadsUe(s: Stream, i: nat, v: nat)
    requires UeHere(s, i, v)
    ensures (Exact(v) ==> s.Ue(i) == v) && s.PastUe(i) == i + Length(Ue(v))
  {
    ReadsCodeWord(s, i, Prefix(v + 1), Suffix(v + 1));
    if Exact(v) {
      PrefixSmall(v + 1);
    }
  }

  lemma PrefixSmall(x: nat)
    requires 0 < x < 0x8000_0000
    ensures Prefix(x) <= 30
  {
    PrefixBounds(x);
    Pow2Values();
    if Prefix(x) > 30 {
      Pow2Monotone(31, Prefix(x));
    }
  }

  lemma ReadsCodeWord(s: Stream, i: nat, z: nat, w: nat)
    requires CodeWord(s, i, z, w) && w < Pow2(z)
    ensures (z <= 30 ==> s.Ue(i) == Pow2(z) - 1 + w) && s.PastUe(i) == i + 2 * z + 1
  {
    CountsZeros(s, i, 0, z);
    ReadsSuffix(s, i + z + 1, z, w);
    UeFrom(s, i, z, w);
  }

  lemma ReadsSuffix(s: Stream, i: nat, z: nat, w: nat)
    requires Spelled(s, i, z, w) && w < Pow2(z)
    ensures s.Value(i, z) == w && s.Past(i, z) == i + z
  {
    SpelledValue(s, i, z, w, z);
    LowSmall(w, z);
  }

  lemma UeFrom(s: Stream, i: nat, z: nat, w: nat)
    requires s.Zeros(i, 0) == z && s.Stop(i, 0) == i + z + 1
    requires s.Value(i + z + 1, z) == w && s.Past(i + z + 1, z) == i + 2 * z + 1
    ensures (z <= 30 ==> s.Ue(i) == Pow2(z) - 1 + w) && s.PastUe(i) == i + 2 * z + 1
  {
  }

  /** The mapping to signed values undoes the code number. */
  lemma SignedBack(v: int)
    requires Exact(CodeNum(v))
    ensures SeValue(CodeNum(v)) == v
  {
  }

  lemma CodeSmall(x: nat)
    requires x > 0 && Prefix(x) <= 31
    ensures x < UINT32
  {
    PrefixBounds(x);
    Pow2Monotone(Prefix(x) + 1, 32);
    Pow2Values();
  }

  lemma ReadsSe(s: Stream, i: nat, v: int)
    requires UeHere(s, i, CodeNum(v))
    ensures (Exact(CodeNum(v)) ==> s.Se(i) == v) && s.PastUe(i) == i + Length(Se(v))
  {
    ReadsUe(s, i, CodeNum(v));
    if Exact(CodeNum(v)) {
      SignedBack(v);
    }
  }

  /** The function for the kind of element, called at i, returns its value if it can. */
  ghost predicate Reads(s: Stream, i: nat, x: Item) {
    match x
    case U(n, v) => s.Value(i, n) == v
    case Ue(v) => Exact(v) ==> s.Ue(i) == v
    case Se(v) => Exact(CodeNum(v)) ==> s.Se(i) == v
  }

  ghost function PastItem(s: Stream, i: nat, x: Item): nat {
    if x.U? then s.Past(i, x.n) else s.PastUe(i)
  }

  lemma ReadBackOne(s: Stream, i: nat, x: Item)
    requires Here(s, i, x)
    ensures Reads(s, i, x) && PastItem(s, i, x) == i + Length(x)
  {
    if x.U? {
      ReadsU(s, i, x.n, x.bits);
    } else if x.Ue? {
      ReadsUe(s, i, x.num);
    } else {
      ReadsSe(s, i, x.val);
    }
  }

  /** Reading the kinds of element in turn from i yields their values and ends at bit j. */
  ghost predicate ReadsAll(s: Stream, i: nat, xs: Items, j: nat)
    decreases xs
  {
    match xs
    case End => i == j
    case Then(x, rest) => Reads(s, i, x) && ReadsAll(s, PastItem(s, i, x), rest, j)
  }

  lemma LaterOnes(s: Stream, i: nat, x: Item, rest: Items, end: nat, n: nat)
    requires n <= Count(rest)
    ensures Count(Then(x, rest)) == Count(rest) + 1
    ensures StandsAt(s, i, Then(x, rest), end, n + 1) <==> StandsAt(s, i + Length(x), rest, end, n)
  {
  }

  lemma StandsFirst(s: Stream, i: nat, x: Item, rest: Items, end: nat)
    requires Stands(s, i, Then(x, rest), end)
    ensures Here(s, i, x) && Stands(s, i + Length(x), rest, end)
  {
    assert StandsAt(s, i, Then(x, rest), end, 0);
    var j := i + Length(x);
    forall n: nat | n <= Count(rest)
      ensures StandsAt(s, j, rest, end, n)
    {
      LaterOnes(s, i, x, rest, end, n);
      assert StandsAt(s, i, Then(x, rest), end, n + 1);
    }
  }

  lemma StandsThen(s: Stream, i: nat, x: Item, rest: Items, end: nat)
    requires Here(s, i, x) && Stands(s, i + Length(x), rest, end)
    ensures Stands(s, i, Then(x, rest), end)
  {
    var xs := Then(x, rest);
    forall n: nat | n <= Count(xs)
      ensures StandsAt(s, i, xs, end, n)
    {
      if n > 0 {
        LaterOnes(s, i, x, rest, end, n - 1);
      }
    }
  }

  lemma ReadsFirst(s: Stream, i: nat, x: Item, rest: Items, j: nat)
    requires Reads(s, i, x) && ReadsAll(s, PastItem(s, i, x), rest, j)
    ensures ReadsAll(s, i, Then(x, rest), j)
  {
  }

  // ---------- reading one element after the other ----------

  lemma GetOne(s: Stream, i: nat, x: Item, rest: Items, end: nat)
    requires Stands(s, i, Then(x, rest), end)
    ensures Reads(s, i, x) && PastItem(s, i, x) == i + Length(x) && Stands(s, PastItem(s, i, x), rest, end)
  {
    StandsFirst(s, i, x, rest, end);
    ReadBackOne(s, i, x);
  }

  /** The code is self-delimiting: any sequence is read back and takes exactly its own bits. */
  lemma {:induction false} ReadBack(s: Stream, i: nat, xs: Items, end: nat)
    requires Stands(s, i, xs, end)
    ensures ReadsAll(s, i, xs, end)
    decreases xs
  {
    assert StandsAt(s, i, xs, end, 0);
    if xs.Then? {
      GetOne(s, i, xs.item, xs.rest, end);
      ReadBack(s, PastItem(s, i, xs.item), xs.rest, end);
      ReadsFirst(s, i, xs.item, xs.rest, end);
    }
  }

  lemma NextU(s: Stream, i: nat, xs: Items, end: nat) returns (j: nat, rest: Items)
    requires Stands(s, i, xs, end) && xs.Then? && xs.item.U?
    ensures s.Value(i, xs.item.n) == xs.item.bits && j == s.Past(i, xs.item.n) && rest == xs.rest && Stands(s, j, rest, end)
    ensures j == i + xs.item.n
  {
    GetOne(s, i, xs.item, xs.rest, end);
    j, rest := s.Past(i, xs.item.n), xs.rest;
  }

  lemma NextUe(s: Stream, i: nat, xs: Items, end: nat) returns (j: nat, rest: Items)
    requires Stands(s, i, xs, end) && xs.Then? && xs.item.Ue?
    ensures (Exact(xs.item.num) ==> s.Ue(i) == xs.item.num) && j == s.PastUe(i) && rest == xs.rest && Stands(s, j, rest, end)
  {
    GetOne(s, i, xs.item, xs.rest, end);
    j, rest := s.PastUe(i), xs.rest;
  }

  lemma NextSe(s: Stream, i: nat, xs: Items, end: nat) returns (j: nat, rest: Items)
    requires Stands(s, i, xs, end) && xs.Then? && xs.item.Se?
    ensures j == s.PastUe(i) && rest == xs.rest && Stands(s, j, rest, end)
  {
    GetOne(s, i, xs.item, xs.rest, end);
    j, rest := s.PastUe(i), xs.rest;
  }

  // ---------- code words cut off by the end of the buffer ----------

  lemma UeAtEnd(s: Stream, i: nat)
    requires i >= s.Size()
    ensures s.Ue(i) == 0 && s.PastUe(i) == i
  {
  }

  lemma {:induction false} ZerosToEnd(s: Stream, i: nat, k: nat, n: nat)
    requires 1 <= n && k + n <= 32 && i + n == s.Size() && forall j: nat :: i <= j < i + n ==> !s.At(j)
    ensures s.Zeros(i, k) == k + n - 1 && s.Stop(i, k) == s.Size()
    decreases n
  {
    assert !s.At(i);
    if n > 1 {
      ZerosToEnd(s, i + 1, k + 1, n - 1);
    }
  }

  /** Nothing but zeros is left: the last of them is not counted. */
  lemma {:induction false} UeZerosOnly(s: Stream, i: nat, n: nat)
    requires 1 <= n <= 31 && i + n == s.Size() && forall j: nat :: i <= j < i + n ==> !s.At(j)
    ensures s.Ue(i) == Pow2(n - 1) - 1 && s.PastUe(i) == s.Size()
  {
    ZerosToEnd(s, i, 0, n);
    ValuePastEnd(s, s.Size(), n - 1);
  }

  /** Fewer bits are left after the one than there were zeros: they count as the first ones. */
  lemma {:induction false} UeCut(s: Stream, i: nat, z: nat, k: nat)
    requires z <= 30 && k < z && i + z + 1 + k == s.Size() && (forall j: nat :: i <= j < i + z ==> !s.At(j)) && s.At(i + z)
    ensures s.Ue(i) == Pow2(z) - 1 + Shl(s.Value(i + z + 1, k), z - k) && s.PastUe(i) == s.Size()
  {
    CountsZeros(s, i, 0, z);
    ShortRead(s, i + z + 1, k, z);
  }

  // ---------- the tables of the standard ----------

  /** Tables 9-1 and 9-2: 1, 010, 011, 00100, 00101, 00110, 00111, 0001000 and 0001001 are the first code words. */
  lemma UeTable(wide: (nat, nat) -> int32)
    ensures Stream([0x80], wide).Ue(0) == 0 && Stream([0x40], wide).Ue(0) == 1 && Stream([0x60], wide).Ue(0) == 2
    ensures Stream([0x20], wide).Ue(0) == 3 && Stream([0x28], wide).Ue(0) == 4 && Stream([0x30], wide).Ue(0) == 5
    ensures Stream([0x38], wide).Ue(0) == 6 && Stream([0x10], wide).Ue(0) == 7 && Stream([0x12], wide).Ue(0) == 8
  {
    OneByteUe(0x80, wide, 0, 0x80);
    OneByteUe(0x40, wide, 1, 0x20);
    OneByteUe(0x60, wide, 1, 0x20);
    OneByteUe(0x20, wide, 2, 0x08);
    OneByteUe(0x28, wide, 2, 0x08);
    OneByteUe(0x30, wide, 2, 0x08);
    OneByteUe(0x38, wide, 2, 0x08);
    OneByteUe(0x10, wide, 3, 0x02);
    OneByteUe(0x12, wide, 3, 0x02);
  }

  lemma SmallPowers()
    ensures Pow2(0) == 1 && Pow2(1) == 2 && Pow2(2) == 4 && Pow2(3) == 8 && Pow2(4) == 16 && Pow2(5) == 32
    ensures Pow2(6) == 64 && Pow2(7) == 128 && Pow2(8) == 256
  {
  }

  /** z zeros, and a one; the code word is the bits down to the place of `last`. */
  lemma {:induction false} OneByteUe(b: byte, wide: (nat, nat) -> int32, z: nat, last: nat)
    requires (z == 0 && last == 0x80 && 0x80 <= b) || (z == 1 && last == 0x20 && 0x40 <= b < 0x80)
          || (z == 2 && last == 0x08 && 0x20 <= b < 0x40) || (z == 3 && last == 0x02 && 0x10 <= b < 0x20)
    ensures Stream([b], wide).Ue(0) == b as nat / last - 1
  {
    var s := Stream([b], wide);
    SmallPowers();
    ByteValue(s, 0, z);
    ByteValue(s, 0, z + 1);
    ByteValue(s, 0, 2 * z + 1);
    assert s.Value(0, z) == 0 && s.Value(0, z + 1) == 1;
    ZeroBits(s, 0, z);
    WordAt(s, z);
  }

  lemma {:induction false} ZeroBits(s: Stream, i: nat, n: nat)
    requires s.Value(i, n) == 0
    ensures forall j: nat :: i <= j < i + n ==> !s.At(j)
    decreases n
  {
    if n > 0 {
      ZeroBits(s, i, n - 1);
    }
  }

  /** A code word at the start, read as one number. */
  lemma {:induction false} WordAt(s: Stream, z: nat)
    requires z <= 30 && s.Value(0, z + 1) == 1 && forall j: nat :: 0 <= j < 0 + z ==> !s.At(j)
    ensures s.Ue(0) == s.Value(0, 2 * z + 1) - 1
  {
    assert s.At(0 + z);
    UeValue(s, 0, z);
    SplitAtOne(s, z);
  }

  lemma {:induction false} SplitAtOne(s: Stream, z: nat)
    requires s.Value(0, z + 1) == 1
    ensures s.Value(0, 2 * z + 1) == Pow2(z) + s.Value(z + 1, z)
  {
    ValueSplit(s, 0, z + 1, z);
    ShlOne(z);
  }

  lemma {:induction false} UeValue(s: Stream, i: nat, z: nat)
    requires z <= 30 && s.At(i + z) && Zeros(s, i, z)
    ensures s.Ue(i) == Pow2(z) - 1 + s.Value(i + z + 1, z)
  {
    CountsZeros(s, i, 0, z);
  }

  /** Table 9-3: 0, 1, -1, 2, -2, 3 and -3. */
  lemma SeTable()
    ensures SeValue(0) == 0 && SeValue(1) == 1 && SeValue(2) == -1 && SeValue(3) == 2 && SeValue(4) == -2
    ensures SeValue(5) == 3 && SeValue(6) == -3
  {
  }

  // ---------- writing ----------

  /** The buffers agree on everything outside the bits from i to j. */
  ghost predicate SameElsewhere(s: Stream, s': Stream, i: nat, j: nat) {
    && s'.Size() == s.Size() && s'.wide == s.wide
    && forall k: nat :: k < s.Size() && !(i <= k < j) ==> (s'.At(k) <==> s.At(k))
  }

  /** The digits of v + 1 are a one and the digits of what it is above the power of two. */
  lemma {:induction false} TopBit(x: nat, z: nat, j: nat)
    requires Pow2(z) <= x < Pow2(z + 1) && j <= z
    ensures Bit(x, j) <==> if j == z then true else Bit(x - Pow2(z), j)
  {
    if z > 0 && j > 0 {
      TopBit(x / 2, z - 1, j - 1);
      assert (x - Pow2(z)) / 2 == x / 2 - Pow2(z - 1);
    }
  }

  /** The digits of x: a one, and what is below. */
  lemma DigitsWritten(s1: Stream, s2: Stream, i: nat, z: nat, x: nat)
    requires Pow2(z) <= x < Pow2(z + 1) && i + z + 1 <= s1.Size() && Laid(s1, s2, i, z + 1, x)
    ensures s2.At(i) && Spelled(s2, i + 1, z, x - Pow2(z))
  {
    TopBit(x, z, z);
    forall j: nat | i + 1 <= j < i + 1 + z
      ensures s2.At(j) <==> Bit(x - Pow2(z), z - 1 - (j - (i + 1)))
    {
      TopBit(x, z, z - 1 - (j - (i + 1)));
    }
  }

  lemma ZerosWritten(s: Stream, s1: Stream, i: nat, z: nat)
    requires Laid(s, s1, i, z, 0)
    ensures Zeros(s1, i, z)
  {
    forall j: nat | i <= j < i + z
      ensures !s1.At(j)
    {
      ZeroBit(z - 1 - (j - i));
    }
  }

  lemma LaidAfter(s: Stream, s': Stream, i: nat, z: nat, n: nat, x: nat)
    requires Zeros(s, i, z) && Laid(s, s', i + z, n, x)
    ensures Zeros(s', i, z)
  {
  }

  lemma LaidTwice(s: Stream, s1: Stream, s2: Stream, i: nat, z: nat, n: nat, x: nat)
    requires Laid(s, s1, i, z, 0) && Laid(s1, s2, i + z, n, x)
    ensures SameElsewhere(s, s2, i, i + z + n)
  {
  }

  /** A code word is two writes: its zeros, and v + 1. */
  lemma UeWritten(s: Stream, s1: Stream, s2: Stream, i: nat, v: nat)
    requires Fits(Ue(v)) && i + Length(Ue(v)) <= s.Size()
    requires Laid(s, s1, i, Prefix(v + 1), 0) && Laid(s1, s2, i + Prefix(v + 1), Prefix(v + 1) + 1, v + 1)
    ensures UeHere(s2, i, v) && SameElsewhere(s, s2, i, i + Length(Ue(v)))
  {
    var z := Prefix(v + 1);
    PrefixBounds(v + 1);
    CodeWordWritten(s, s1, s2, i, z, v + 1);
    assert Suffix(v + 1) == v + 1 - Pow2(z);
  }

  lemma CodeWordWritten(s: Stream, s1: Stream, s2: Stream, i: nat, z: nat, x: nat)
    requires Pow2(z) <= x < Pow2(z + 1) && z <= 31 && i + 2 * z + 1 <= s.Size()
    requires Laid(s, s1, i, z, 0) && Laid(s1, s2, i + z, z + 1, x)
    ensures CodeWord(s2, i, z, x - Pow2(z)) && SameElsewhere(s, s2, i, i + 2 * z + 1)
  {
    ZerosWritten(s, s1, i, z);
    LaidAfter(s1, s2, i, z, z + 1, x);
    DigitsWritten(s1, s2, i + z, z, x);
    LaidTwice(s, s1, s2, i, z, z + 1, x);
  }

  lemma SameTwice(s: Stream, s1: Stream, s2: Stream, i: nat, j: nat, k: nat)
    requires SameElsewhere(s, s1, i, j) && SameElsewhere(s1, s2, j, k) && i <= j <= k
    ensures SameElsewhere(s, s2, i, k)
  {
  }

  lemma SpelledStays(s: Stream, s': Stream, i: nat, n: nat, v: nat, j: nat, j': nat)
    requires Spelled(s, i, n, v) && SameElsewhere(s, s', j, j') && i + n <= j
    ensures Spelled(s', i, n, v)
  {
  }

  /** Elements are not disturbed by writes elsewhere. */
  lemma HereStays(s: Stream, s': Stream, i: nat, x: Item, j: nat, j': nat)
    requires Here(s, i, x) && SameElsewhere(s, s', j, j') && i + Length(x) <= j
    ensures Here(s', i, x)
  {
    match x {
      case U(n, v) => SpelledStays(s, s', i, n, v, j, j');
      case Ue(v) => UeStays(s, s', i, v, j, j');
      case Se(v) => UeStays(s, s', i, CodeNum(v), j, j');
    }
  }

  lemma UeStays(s: Stream, s': Stream, i: nat, v: nat, j: nat, j': nat)
    requires UeHere(s, i, v) && SameElsewhere(s, s', j, j') && i + Length(Ue(v)) <= j
    ensures UeHere(s', i, v)
  {
    CodeWordStays(s, s', i, Prefix(v + 1), Suffix(v + 1), j, j');
  }

  lemma CodeWordStays(s: Stream, s': Stream, i: nat, z: nat, w: nat, j: nat, j': nat)
    requires CodeWord(s, i, z, w) && SameElsewhere(s, s', j, j') && i + 2 * z + 1 <= j
    ensures CodeWord(s', i, z, w)
  {
    SpelledStays(s, s', i + z + 1, z, w, j, j');
  }
}
