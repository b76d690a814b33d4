/** The encoded text, character by character, and which characters make a text: in the letters and numbers of RFC 4648. */
module Base64Text {
  import opened Powers
  import opened BitOps
  import opened BitCursor
  import opened Base64Format
  import opened Base64Blocks

  /** The octets as a row of bits. */
  ghost function Row(d: seq<byte>): Stream {
    Stream(d, (_, _) => 0)
  }

  lemma {:induction false} OctetValue(d: seq<byte>, i: nat)
    ensures Row(d).Value(8 * i, 8) == Octet(d, i)
  {
    if i < |d| {
      ByteValue(Row(d), i, 8);
    } else {
      ValuePastEnd(Row(d), 8 * i, 8);
    }
  }

  lemma {:induction false} EightMore(x: nat)
    ensures Shl(x, 8) == 0x100 * x
  {
    ShlIsTimes(x, 8);
    assert Pow2(8) == 0x100;
  }

  lemma {:induction false} SixMore(x: nat)
    ensures Shl(x, 6) == 64 * x
  {
    ShlIsTimes(x, 6);
    assert Pow2(6) == 64;
  }

  /** A group is the next 24 bits. */
  lemma {:induction false} GroupValue(d: seq<byte>, i: nat)
    ensures Row(d).Value(8 * i, 24) == Group(d, i)
  {
    var s := Row(d);
    OctetValue(d, i);
    OctetValue(d, i + 1);
    OctetValue(d, i + 2);
    ValueSplit(s, 8 * i, 8, 8);
    ValueSplit(s, 8 * i, 16, 8);
    EightMore(s.Value(8 * i, 8));
    EightMore(s.Value(8 * i, 16));
  }

  /** Its digits are the next four times six bits. */
  lemma {:induction false} DigitValues(d: seq<byte>, i: nat)
    ensures var s, n := Row(d), Group(d, i);
            && s.Value(8 * i, 6) == n / 0x4_0000 % 64 && s.Value(8 * i + 6, 6) == n / 0x1000 % 64
            && s.Value(8 * i + 12, 6) == n / 64 % 64 && s.Value(8 * i + 18, 6) == n % 64
  {
    var s, j := Row(d), 8 * i;
    GroupValue(d, i);
    FourDigits(s, j);
    SixBits(s, j);
    SixBits(s, j + 6);
    SixBits(s, j + 12);
    SixBits(s, j + 18);
    var v0, v1, v2, v3 := s.Value(j, 6), s.Value(j + 6, 6), s.Value(j + 12, 6), s.Value(j + 18, 6);
    TopDigits(v0, v1, v2, v2 * 64 + v3);
    LowDigits(v0 * 64 + v1, v2, v3);
  }

  lemma {:induction false} FourDigits(s: Stream, j: nat)
    ensures s.Value(j, 24) == s.Value(j, 6) * 0x4_0000 + s.Value(j + 6, 6) * 0x1000 + s.Value(j + 12, 6) * 64 + s.Value(j + 18, 6)
  {
    ValueSplit(s, j, 6, 6);
    ValueSplit(s, j, 12, 6);
    ValueSplit(s, j, 18, 6);
    SixMore(s.Value(j, 6));
    SixMore(s.Value(j, 12));
    SixMore(s.Value(j, 18));
  }

  lemma SixBits(s: Stream, j: nat)
    ensures s.Value(j, 6) < 64
  {
    ValueSmall(s, j, 6);
    assert Pow2(6) == 64;
  }

  // ---------- the characters ----------

  /** The alphabet of table 1 of RFC 4648. */
  lemma LetterIs(v: nat)
    requires v < 64
    ensures v < 26 ==> Letter(v) as int == "ABCDEFGHIJKLMNOPQRSTUVWXYZ"[v] as int
    ensures 26 <= v < 52 ==> Letter(v) as int == "abcdefghijklmnopqrstuvwxyz"[v - 26] as int
    ensures 52 <= v ==> Letter(v) as int == "0123456789+/"[v - 52] as int
  {
  }

  /** A character of a group. */
  lemma {:induction false} QuadDigit(d: seq<byte>, i: nat, c: nat)
    requires i < |d| && c < 4
    ensures Row(d).Value(8 * i + 6 * c, 6) < 64
    ensures Quad(d, i)[c] == if (c == 2 && i + 1 >= |d|) || (c == 3 && i + 2 >= |d|) then 61 else Letter(Row(d).Value(8 * i + 6 * c, 6))
  {
    DigitValues(d, i);
    SixBits(Row(d), 8 * i + 6 * c);
  }

  /** Character 4g + c of the encoding. */
  lemma {:induction false} QuadAt(d: seq<byte>, i: nat, g: nat, c: nat)
    requires c < 4 && i + 3 * g < |d|
    ensures 4 * g + c < |EncodedFrom(d, i)| && EncodedFrom(d, i)[4 * g + c] == Quad(d, i + 3 * g)[c]
    decreases g
  {
    if g > 0 {
      QuadAt(d, i + 3, g - 1, c);
      assert EncodedFrom(d, i)[4 * g + c] == EncodedFrom(d, i + 3)[4 * (g - 1) + c];
    }
  }

  /** How many pads end the encoding of n octets. */
  function Pads(n: nat): nat {
    (3 - n % 3) % 3
  }

  lemma PadPlaces(q: nat, r: nat, g: nat, c: nat)
    requires r < 3 && c < 4 && 3 * g < 3 * q + r
    ensures var n := 3 * q + r;
            4 * g + c + Pads(n) >= 4 * ((n + 2) / 3) <==> (c == 2 && 3 * g + 1 >= n) || (c == 3 && 3 * g + 2 >= n)
  {
    var n := 3 * q + r;
    assert n % 3 == r;
    assert (n + 2) / 3 == if r == 0 then q else q + 1;
  }

  lemma PlaceOf(n: nat, k: nat) returns (g: nat, c: nat)
    requires k < 4 * ((n + 2) / 3)
    ensures k == 4 * g + c && c < 4 && 3 * g < n
  {
    g, c := k / 4, k % 4;
  }

  /** Character k of the encoding stands for the six bits from bit 6k, and the pads are '='. */
  lemma {:induction false} EncodedAt(d: seq<byte>, k: nat)
    requires k < |Encoded(d)|
    ensures Row(d).Value(6 * k, 6) < 64
    ensures Encoded(d)[k] == if k + Pads(|d|) >= |Encoded(d)| then 61 else Letter(Row(d).Value(6 * k, 6))
  {
    EncodedLength(d, 0);
    var g, c := PlaceOf(|d|, k);
    QuadAt(d, 0, g, c);
    QuadDigit(d, 3 * g, c);
    PadPlaces(|d| / 3, |d| % 3, g, c);
    assert 8 * (3 * g) + 6 * c == 6 * k;
  }

  /** Character k of a text for the octets: the last ones are '=', the others stand for the six bits from bit 6k. */
  ghost predicate TextAt(d: seq<byte>, e: seq<byte>, k: nat)
    requires k < |e|
  {
    var v := Row(d).Value(6 * k, 6);
    if k + (3 - |d| % 3) % 3 >= |e| then e[k] == 61
    else v < 64 && e[k] as int == (if v < 26 then "ABCDEFGHIJKLMNOPQRSTUVWXYZ"[v]
                                   else if v < 52 then "abcdefghijklmnopqrstuvwxyz"[v - 26] else "0123456789+/"[v - 52]) as int
  }

  lemma {:induction false} TextIs(d: seq<byte>, k: nat)
    requires k < |Encoded(d)|
    ensures TextAt(d, Encoded(d), k)
  {
    EncodedAt(d, k);
    LetterIs(Row(d).Value(6 * k, 6));
  }

  /** The test vectors of section 10 of RFC 4648: f, fo and foobar. */
  lemma {:induction false} Vectors()
    ensures Encoded([102]) == [90, 103, 61, 61]
    ensures Encoded([102, 111]) == [90, 109, 56, 61]
    ensures Encoded([102, 111, 111, 98, 97, 114]) == [90, 109, 57, 118, 89, 109, 70, 121]
  {
    OneOctet();
    TwoOctets();
    SixOctets();
  }

  lemma {:induction false} OneOctet()
    ensures Encoded([102]) == [90, 103, 61, 61]
  {
    LastGroup([102], 0);
  }

  lemma {:induction false} TwoOctets()
    ensures Encoded([102, 111]) == [90, 109, 56, 61]
  {
    LastGroup([102, 111], 0);
  }

  lemma {:induction false} LastGroup(d: seq<byte>, i: nat)
    requires i < |d| <= i + 3
    ensures EncodedFrom(d, i) == Quad(d, i)
  {
    assert EncodedFrom(d, i + 3) == [];
  }

  lemma {:induction false} SixOctets()
    ensures Encoded([102, 111, 111, 98, 97, 114]) == [90, 109, 57, 118, 89, 109, 70, 121]
  {
    var d := [102, 111, 111, 98, 97, 114];
    LastGroup(d, 3);
    assert EncodedFrom(d, 0) == Quad(d, 0) + Quad(d, 3);
  }

  // ---------- what load_block keeps ----------

  lemma {:induction false} Upper(c: byte)
    ensures (c as int as char) in "ABCDEFGHIJKLMNOPQRSTUVWXYZ" <==> 65 <= c <= 90
  {
    if 65 <= c <= 90 {
      assert "ABCDEFGHIJKLMNOPQRSTUVWXYZ"[c as int - 65] == c as int as char;
    }
  }

  lemma {:induction false} Lower(c: byte)
    ensures (c as int as char) in "abcdefghijklmnopqrstuvwxyz" <==> 97 <= c <= 122
  {
    if 97 <= c <= 122 {
      assert "abcdefghijklmnopqrstuvwxyz"[c as int - 97] == c as int as char;
    }
  }

  /** The 65 characters: the letters, the digits, and + / = */
  lemma {:induction false} Characters(c: byte)
    ensures IsBase64(c) <==> ((c as int as char) in "ABCDEFGHIJKLMNOPQRSTUVWXYZ" || (c as int as char) in "abcdefghijklmnopqrstuvwxyz"
                              || (c as int as char) in "0123456789+/=")
  {
    Upper(c);
    Lower(c);
  }

  lemma {:induction false} EncodedKept(d: seq<byte>, k: nat)
    requires k < |Encoded(d)|
    ensures IsBase64(Encoded(d)[k])
  {
    EncodedAt(d, k);
  }

  /** A text of such characters is interspersed with nothing. */
  lemma {:induction false} InterspersedSelf(e: seq<byte>)
    requires forall k :: 0 <= k < |e| ==> IsBase64(e[k])
    ensures Interspersed(e, e)
    decreases |e|
  {
    if e != [] {
      InterspersedSelf(e[..|e| - 1]);
    }
  }

  /** So every string of octets has a text that BlocksDecode speaks of: its own encoding, for one. */
  lemma EncodedInterspersed(d: seq<byte>)
    ensures Interspersed(Encoded(d), Encoded(d))
  {
    forall k | 0 <= k < |Encoded(d)|
      ensures IsBase64(Encoded(d)[k])
    {
      EncodedKept(d, k);
    }
    InterspersedSelf(Encoded(d));
  }
}
