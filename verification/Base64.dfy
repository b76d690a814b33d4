/** Base64Encode and load_block (ltRtspService/BaseEncoder.h), against Base64Format. */
module Base64 {
  import opened Powers
  import opened BitOps
  import opened BitCursor
  import opened Base64Format
  import opened Options
  import opened Base64Blocks
  import opened Base64Text

  const UPPER: string := "ABCDEFGHIJKLMNOPQRSTUVWXYZ"
  const LOWER: string := "abcdefghijklmnopqrstuvwxyz"
  const OTHER: string := "0123456789+/"
  const BASE_64: string := UPPER + LOWER + OTHER

  lemma UpperCase(v: nat)
    requires v < 26
    ensures |UPPER| == 26 && UPPER[v] as int == 65 + v
  {
  }

  lemma LowerCase(v: nat)
    requires v < 26
    ensures |LOWER| == 26 && LOWER[v] as int == 97 + v
  {
  }

  lemma Others(v: nat)
    requires v < 12
    ensures |OTHER| == 12 && OTHER[v] as int == if v < 10 then 48 + v else if v == 10 then 43 else 47
  {
  }

  lemma TableIsAlphabet(v: nat)
    requires v < 64
    ensures |BASE_64| == 64 && BASE_64[v] as int == Letter(v) as int
  {
    UpperCase(if v < 26 then v else 0);
    LowerCase(if 26 <= v < 52 then v - 26 else 0);
    Others(if v >= 52 then v - 52 else 0);
  }

  // ---------- the size of the buffer ----------

  /** The characters of n octets, in 32 bits. */
  function Chars32(n: nat): nat {
    (n + 2) % UINT32 / 3 * 4 % UINT32
  }

  /** outSize: the sum in 64 bits, cut to 32. */
  function OutSize(n: nat): nat {
    (Chars32(n) + 2 * (Chars32(n) / 60 + 1)) % UINT32
  }

  /** The test for the early return. */
  predicate Refuses(n: nat) {
    OutSize(n) < n * 4 % UINT32 / 3
  }

  function Chars(n: nat): nat {
    4 * ((n + 2) / 3)
  }

  /** The most octets whose size comes out right. */
  const LIMIT: nat := 3117314970

  lemma OutSizeExact(n: nat)
    requires n <= LIMIT
    ensures Chars32(n) == Chars(n) && OutSize(n) == Chars(n) + 2 * (Chars(n) / 60 + 1)
  {
    assert n + 2 < UINT32 && Chars(n) <= 4156419960;
    assert Chars(n) / 60 <= 69273666;
  }

  /** Then the early return is not taken. */
  lemma NotRefused(n: nat)
    requires n <= LIMIT
    ensures !Refuses(n)
  {
    OutSizeExact(n);
    if n < 0x4000_0000 {
      assert n * 4 / 3 <= Chars(n);
    } else {
      assert n * 4 % UINT32 / 3 < 0x5555_5556 <= Chars(n);
    }
  }

  /** The sizes for which the loop is entered with a buffer that is too small. */
  predicate TooBig(n: nat) {
    0xC000_0000 <= n < 0xFFFF_FFFE
  }

  lemma MiddleRefused(n: nat)
    requires LIMIT < n < 0xBFFF_FFFE
    ensures Refuses(n) && OutSize(n) < Chars(n)
  {
    var c := Chars(n);
    assert 4156419964 <= c < UINT32 && Chars32(n) == c;
    assert 69273666 <= c / 60 < 71582789;
    var o := c + 2 * (c / 60 + 1);
    assert UINT32 <= o < UINT32 + 0x1000_0000;
    assert OutSize(n) == o - UINT32;
    assert n * 4 % UINT32 == n * 4 - 2 * UINT32;
  }

  lemma BigTaken(n: nat)
    requires TooBig(n)
    ensures !Refuses(n) && OutSize(n) < Chars(n)
  {
    var c := Chars(n) - UINT32;
    assert 0 <= c <= 0x5555_5554 && Chars32(n) == c;
    assert OutSize(n) == c + 2 * (c / 60 + 1);
    assert n * 4 % UINT32 == n * 4 - 3 * UINT32;
  }

  /** All characters and the terminator fit the buffer if and only if there are no more octets than that. */
  lemma OutSizeFits(n: nat)
    requires n < UINT32
    ensures Chars(n) + 1 <= OutSize(n) <==> n <= LIMIT
  {
    if n <= LIMIT {
      OutSizeExact(n);
    } else if n < 0xBFFF_FFFE {
      MiddleRefused(n);
    } else if TooBig(n) {
      BigTaken(n);
    } else {
      LastSizes();
    }
  }

  /** The early return is taken exactly between the sizes that come out right and those, and for the last two sizes. */
  lemma RefusedSizes(n: nat)
    requires n < UINT32
    ensures Refuses(n) <==> n > LIMIT && !TooBig(n)
  {
    if n <= LIMIT {
      NotRefused(n);
    } else if n < 0xBFFF_FFFE {
      MiddleRefused(n);
    } else if TooBig(n) {
      BigTaken(n);
    } else {
      LastSizes();
    }
  }

  lemma LastSizes()
    ensures OutSize(0xBFFF_FFFE) == OutSize(0xBFFF_FFFF) == OutSize(0xFFFF_FFFE) == OutSize(0xFFFF_FFFF) == 2
    ensures Refuses(0xBFFF_FFFE) && Refuses(0xBFFF_FFFF) && Refuses(0xFFFF_FFFE) && Refuses(0xFFFF_FFFF)
    ensures Chars(0xBFFF_FFFE) > 2 && Chars(0xBFFF_FFFF) > 2 && Chars(0xFFFF_FFFE) > 2 && Chars(0xFFFF_FFFF) > 2
  {
  }

  /** Every write has room, or there is none, if and only if the size is not one of those. */
  lemma SafeSizes(n: nat)
    requires n < UINT32
    ensures Refuses(n) || Chars(n) + 1 <= OutSize(n) <==> !TooBig(n)
  {
    OutSizeFits(n);
    RefusedSizes(n);
  }

  /** 3 GiB: four characters a group come to exactly 2^32, and the buffer to two bytes. */
  lemma TwoBytes()
    ensures OutSize(0xC000_0000) == 2 && !Refuses(0xC000_0000) && Chars(0xC000_0000) == UINT32
  {
  }

  // ---------- the encoder ----------

  /** (y & (m << k)) >> k */
  lemma {:induction false} HighBits(y: nat, m: nat, k: nat)
    ensures Shr(And(y, Shl(m, k)), k) == And(Shr(y, k), m)
  {
    if k > 0 {
      HighBits(y / 2, m, k - 1);
      ShlHalf(m, k);
      AndHalf(y, Shl(m, k));
    }
  }

  lemma ShlHalf(m: nat, k: nat)
    requires k > 0
    ensures Shl(m, k) / 2 == Shl(m, k - 1)
  {
  }

  lemma AndHalf(a: nat, b: nat)
    ensures And(a, b) / 2 == And(a / 2, b / 2)
  {
  }

  lemma LowDigit(x: nat, n: nat, mask: nat)
    requires n <= 8 && mask == Mask(n)
    ensures 0 < Pow2(n) && And(x, mask) == x % Pow2(n)
  {
    AndMask(x, n);
    LowIsMod(x, n);
  }

  /** The n high bits of a byte. */
  lemma HighDigit(y: nat, n: nat, low: nat, mask: nat)
    requires n <= 8 && y < 0x100 && low == Mask(n) && mask == Shl(low, 8 - n)
    ensures Shr(And(y, mask), 8 - n) == Shr(y, 8 - n)
  {
    HighBits(y, low, 8 - n);
    AndMask(Shr(y, 8 - n), n);
    Pow2Values();
    ShrBelow(y, 8 - n, n);
    LowSmall(Shr(y, 8 - n), n);
  }

  // The indices into the table: the six-bit digits of the group.

  function FirstIndex(x: byte): (r: nat)
    ensures r == x as nat / 4
  {
    LowIsMod(x as nat, 2);
    assert Pow2(2) == 4;
    Shr(x as nat, 2)
  }

  /** With nothing after it. */
  function SecondAlone(x: byte): (r: nat)
    ensures r == x as nat % 4 * 16 == Shl(x as nat % 4, 4)
  {
    LowDigit(x as nat, 2, 0x03);
    assert Mask(2) == 0x03 && Pow2(2) == 4;
    Shl(And(x as nat, 0x03), 4)
  }

  function SecondIndex(x: byte, y: byte): (r: nat)
    ensures r == x as nat % 4 * 16 + y as nat / 16
  {
    assert Mask(4) == 0x0f && Shl(0x0f, 4) == 0xf0 && Pow2(4) == 16;
    HighDigit(y as nat, 4, 0x0f, 0xf0);
    LowIsMod(y as nat, 4);
    OrDisjoint(x as nat % 4, y as nat / 16, 4);
    Or(SecondAlone(x), Shr(And(y as nat, 0xf0), 4))
  }

  function ThirdAlone(y: byte): (r: nat)
    ensures r == y as nat % 16 * 4 == Shl(y as nat % 16, 2)
  {
    assert Mask(4) == 0x0f && Pow2(4) == 16 && Pow2(2) == 4;
    LowDigit(y as nat, 4, 0x0f);
    ShlIsTimes(y as nat % 16, 2);
    Shl(And(y as nat, 0x0f), 2)
  }

  function ThirdIndex(y: byte, z: byte): (r: nat)
    ensures r == y as nat % 16 * 4 + z as nat / 64
  {
    assert Mask(2) == 0x03 && Shl(0x03, 6) == 0xc0 && Pow2(2) == 4 && Pow2(6) == 64;
    HighDigit(z as nat, 2, 0x03, 0xc0);
    LowIsMod(z as nat, 6);
    var a, b := ThirdAlone(y), Shr(And(z as nat, 0xc0), 6);
    assert b == z as nat / 64;
    OrDisjoint(y as nat % 16, b, 2);
    assert Or(a, b) == a + b;
    Or(a, b)
  }

  function FourthIndex(z: byte): (r: nat)
    ensures r == z as nat % 64
  {
    LowDigit(z as nat, 6, 0x3f);
    assert Mask(6) == 0x3f && Pow2(6) == 64;
    And(z as nat, 0x3f)
  }

  /** padding is 2 or 1 for the last one or two octets, and neither otherwise, in the width of the C type. */
  lemma PaddingTells(left: nat)
    requires 1 <= left < UINT32
    ensures (Wrap(3 - left) == 2 <==> left == 1) && (Wrap(3 - left) == 1 <==> left == 2)
  {
  }

  function Char(v: nat): (c: byte)
    requires v < 64
    ensures c == Letter(v)
  {
    TableIsAlphabet(v);
    BASE_64[v] as int as byte
  }

  ghost predicate QuadAt(out: seq<byte>, j: nat, d: seq<byte>, i: nat)
    requires j + 4 <= |out|
  {
    var q := Quad(d, i);
    out[j] == q[0] && out[j + 1] == q[1] && out[j + 2] == q[2] && out[j + 3] == q[3]
  }

  /** One octet is left. */
  method PutOne(input: array<byte>, dataSize: nat, out: array<byte>, i: nat, j: nat)
    requires i + 1 == dataSize <= input.Length && dataSize < UINT32 && j + 4 <= out.Length && input != out
    modifies out
    ensures forall k :: 0 <= k < j ==> out[k] == old(out[k])
    ensures QuadAt(out[..], j, input[..dataSize], i)
  {
    QuadIs(input[..dataSize], i);
    out[j] := Char(FirstIndex(input[i]));
    out[j + 1] := Char(SecondAlone(input[i]));
    out[j + 2] := PAD;
    out[j + 3] := PAD;
  }

  /** Two octets are left. */
  method PutTwo(input: array<byte>, dataSize: nat, out: array<byte>, i: nat, j: nat)
    requires i + 2 == dataSize <= input.Length && dataSize < UINT32 && j + 4 <= out.Length && input != out
    modifies out
    ensures forall k :: 0 <= k < j ==> out[k] == old(out[k])
    ensures QuadAt(out[..], j, input[..dataSize], i)
  {
    QuadIs(input[..dataSize], i);
    out[j] := Char(FirstIndex(input[i]));
    out[j + 1] := Char(SecondIndex(input[i], input[i + 1]));
    out[j + 2] := Char(ThirdAlone(input[i + 1]));
    out[j + 3] := PAD;
  }

  method PutThree(input: array<byte>, dataSize: nat, out: array<byte>, i: nat, j: nat)
    requires i + 3 <= dataSize <= input.Length && dataSize < UINT32 && j + 4 <= out.Length && input != out
    modifies out
    ensures forall k :: 0 <= k < j ==> out[k] == old(out[k])
    ensures QuadAt(out[..], j, input[..dataSize], i)
  {
    QuadIs(input[..dataSize], i);
    out[j] := Char(FirstIndex(input[i]));
    out[j + 1] := Char(SecondIndex(input[i], input[i + 1]));
    out[j + 2] := Char(ThirdIndex(input[i + 1], input[i + 2]));
    out[j + 3] := Char(FourthIndex(input[i + 2]));
  }

  /** One turn of the loop. */
  method PutGroup(input: array<byte>, dataSize: nat, out: array<byte>, i: nat, j: nat)
    requires i < dataSize <= input.Length && dataSize < UINT32 && j + 4 <= out.Length && input != out
    modifies out
    ensures forall k :: 0 <= k < j ==> out[k] == old(out[k])
    ensures QuadAt(out[..], j, input[..dataSize], i)
  {
    var padding := Wrap(3 - (dataSize - i));
    PaddingTells(dataSize - i);
    if padding == 2 {
      PutOne(input, dataSize, out, i, j);
    } else if padding == 1 {
      PutTwo(input, dataSize, out, i, j);
    } else {
      PutThree(input, dataSize, out, i, j);
    }
  }

  lemma QuadNonzero(d: seq<byte>, i: nat, k: nat)
    requires k < 4
    ensures Quad(d, i)[k] != 0
  {
  }

  /** The characters up to the terminator. */
  function CString(s: seq<byte>): seq<byte> {
    if s == [] || s[0] == 0 then [] else [s[0]] + CString(s[1..])
  }

  lemma {:induction false} CStringEnds(s: seq<byte>, j: nat)
    requires j < |s| && s[j] == 0 && forall k :: 0 <= k < j ==> s[k] != 0
    ensures CString(s) == s[..j]
  {
    if j > 0 {
      CStringEnds(s[1..], j - 1);
      assert s[..j] == [s[0]] + s[1..][..j - 1];
    }
  }

  lemma GroupDone(d: seq<byte>, i: nat, before: seq<byte>, out: seq<byte>, j: nat)
    requires i < |d| && j + 4 <= |out| && out[..j] == before && Encoded(d) == before + EncodedFrom(d, i)
    requires QuadAt(out, j, d, i)
    ensures Encoded(d) == out[..j + 4] + EncodedFrom(d, i + 3)
  {
    var q, rest := Quad(d, i), EncodedFrom(d, i + 3);
    assert EncodedFrom(d, i) == q + rest;
    FourMore(out, j, q);
    assert before + (q + rest) == (before + q) + rest;
  }

  lemma FourMore(out: seq<byte>, j: nat, q: seq<byte>)
    requires |q| == 4 && j + 4 <= |out|
    requires out[j] == q[0] && out[j + 1] == q[1] && out[j + 2] == q[2] && out[j + 3] == q[3]
    ensures out[..j + 4] == out[..j] + q
  {
  }

  method AppendGroup(input: array<byte>, dataSize: nat, out: array<byte>, i: nat, j: nat)
    requires i < dataSize <= input.Length && dataSize < UINT32 && j + 4 <= out.Length && input != out
    requires Encoded(input[..dataSize]) == out[..j] + EncodedFrom(input[..dataSize], i)
    requires forall k :: 0 <= k < j ==> out[k] != 0
    modifies out
    ensures Encoded(input[..dataSize]) == out[..j + 4] + EncodedFrom(input[..dataSize], i + 3)
    ensures forall k :: 0 <= k < j + 4 ==> out[k] != 0
  {
    ghost var d, before := input[..dataSize], out[..j];
    PutGroup(input, dataSize, out, i, j);
    assert out[..j] == before;
    GroupDone(d, i, before, out[..], j);
    assert out[..][..j + 4] == out[..j + 4];
    QuadNonzero(d, i, 0);
    QuadNonzero(d, i, 1);
    QuadNonzero(d, i, 2);
    QuadNonzero(d, i, 3);
  }

  /** What Base64Encode comes to: it returns a length, or it would write past its buffer. */
  datatype Outcome = Returned(size: nat) | Overrun

  /** Base64Encode: the outcome, and the string behind `base64` if there is one. */
  method Base64Encode(pData: array<byte>, dataSize: nat, base64: seq<byte>) returns (r: Outcome, text: seq<byte>)
    requires dataSize <= pData.Length && dataSize < UINT32
    ensures r == Overrun <==> TooBig(dataSize)
    ensures dataSize <= LIMIT ==> text == Encoded(pData[..dataSize]) && |text| == Chars(dataSize) && r == Returned(|text|)
    ensures dataSize > LIMIT ==> text == base64 && (r == Returned(0) || r == Overrun)
    ensures dataSize <= LIMIT ==> forall k :: 0 <= k < |text| ==> TextAt(pData[..dataSize], text, k)
  {
    var outSize := OutSize(dataSize);
    var out := new byte[outSize];
    RefusedSizes(dataSize);
    OutSizeFits(dataSize);
    if Refuses(dataSize) {
      return Returned(0), base64;
    }
    var fits, j := EncodeInto(pData, dataSize, out);
    if !fits {
      return Overrun, base64;
    }
    CStringEnds(out[..], j);
    ghost var d := pData[..dataSize];
    forall k | 0 <= k < j
      ensures TextAt(d, Encoded(d), k)
    {
      TextIs(d, k);
    }
    return Returned(j), CString(out[..]);
  }

  /** The loop and the terminator. It ends early where the source would write past the buffer. */
  method EncodeInto(pData: array<byte>, dataSize: nat, out: array<byte>) returns (fits: bool, j: nat)
    requires dataSize <= pData.Length && dataSize < UINT32 && pData != out
    modifies out
    ensures fits <==> Chars(dataSize) < out.Length
    ensures fits ==> j == Chars(dataSize) && out[..j] == Encoded(pData[..dataSize]) && out[j] == 0
    ensures fits ==> forall k :: 0 <= k < j ==> out[k] != 0
  {
    ghost var d := pData[..dataSize];
    EncodedLength(d, 0);
    var i := 0;
    j := 0;
    while i < dataSize
      invariant d == pData[..dataSize] && i <= dataSize + 2 && j + |EncodedFrom(d, i)| == Chars(dataSize) && j <= out.Length
      invariant Encoded(d) == out[..j] + EncodedFrom(d, i)
      invariant forall k :: 0 <= k < j ==> out[k] != 0
    {
      EncodedLength(d, i);
      if j + 4 > out.Length {
        return false, j;
      }
      AppendGroup(pData, dataSize, out, i, j);
      i := i + 3;
      j := j + 4;
    }
    if j >= out.Length {
      return false, j;
    }
    out[j] := 0;
    fits := true;
  }

  // ---------- load_block ----------

  /** load_block: the next four Base64 characters from pos, and where it has come. */
  method LoadBlock(input: array<byte>, size: nat, pos: nat, out: array<byte>) returns (next: nat)
    requires size <= input.Length && size < UINT32 && pos < UINT32 && out.Length == 4 && input != out
    modifies out
    ensures var s := input[..size];
            && next == Next(s, pos, pos) && |Kept(s, pos, next)| <= 4 && out[..] == Padded(Kept(s, pos, next))
            && forall k :: |Kept(s, pos, next)| <= k < 4 ==> out[k] == 0xFF
  {
    ghost var s := input[..size];
    var len: nat, i: nat := 0, 0;
    while len < 4 && pos + i < size
      invariant (pos + i <= size || i == 0) && len <= 4 && input[..size] == s
      invariant out[..len] == Kept(s, pos, pos + i) && Next(s, pos, pos + i) == Next(s, pos, pos)
      decreases size - i
    {
      Scanned(s, pos, pos + i, out[..len]);
      len := Take(input[pos + i], out, len);
      i := i + 1;
    }
    ScanEnds(s, pos, pos + i);
    Fill(out, len);
    next := pos + i;
  }

  /** One turn of the loop that scans: a Base64 character is taken. */
  method Take(c: byte, out: array<byte>, len: nat) returns (len': nat)
    requires len < 4 == out.Length
    modifies out
    ensures len' <= 4 && out[..len'] == if IsBase64(c) then old(out[..len]) + [c] else old(out[..len])
  {
    len' := len;
    if 65 <= c <= 90 || 97 <= c <= 122 || 48 <= c <= 57 || c == 61 || c == 43 || c == 47 {
      out[len] := c;
      len' := len + 1;
      assert out[..len'] == old(out[..len]) + [c];
    }
  }

  /** The loop that fills up. */
  method Fill(out: array<byte>, len0: nat)
    requires len0 <= 4 == out.Length
    modifies out
    ensures out[..] == Padded(old(out[..len0]))
  {
    ghost var q := out[..len0];
    var len := len0;
    while len < 4
      invariant |q| <= len <= 4 && out[..len] == q + seq(len - |q|, _ => FILL)
    {
      ghost var before := out[..len];
      out[len] := 0xFF;
      len := len + 1;
      assert out[..len] == before + [0xFF];
    }
    assert out[..] == out[..len];
  }

  /** n calls in a row, each from where the one before has come. */
  method LoadBlocks(input: array<byte>, size: nat, n: nat) returns (text: seq<byte>)
    requires size <= input.Length && size < UINT32
    ensures text == Blocks(input[..size], n)
  {
    ghost var s := input[..size];
    var out := new byte[4];
    var pos, k := 0, 0;
    text := [];
    while k < n
      invariant k <= n && pos == Cursor(s, k) && text == Blocks(s, k) && input[..size] == s && fresh(out)
    {
      pos := LoadBlock(input, size, pos, out);
      text := text + out[..];
      k := k + 1;
    }
  }

  /** Base64Encode of some octets, with other bytes put in anywhere: load_block hands out what decodes to the octets. */
  method ScanBack(pData: array<byte>, dataSize: nat, input: array<byte>, size: nat) returns (text: seq<byte>)
    requires dataSize <= pData.Length && size <= input.Length && size < UINT32
    requires Interspersed(Encoded(pData[..dataSize]), input[..size])
    ensures Decoded(text) == Some(pData[..dataSize])
  {
    BlocksDecode(pData[..dataSize], input[..size]);
    text := LoadBlocks(input, size, (dataSize + 2) / 3);
  }
}
