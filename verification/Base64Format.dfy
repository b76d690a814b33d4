/** The Base64 encoding of section 4 of RFC 4648, and its decoding. */
module Base64Format {
  import opened BitOps
  import opened Options

  const PAD: byte := 61

  /** Table 1: A to Z, a to z, 0 to 9, + and /. */
  function Letter(v: nat): byte
    requires v < 64
  {
    if v < 26 then (65 + v) as byte else if v < 52 then (97 + (v - 26)) as byte
    else if v < 62 then (48 + (v - 52)) as byte else if v == 62 then 43 else 47
  }

  function LetterValue(c: byte): Option<nat> {
    if 65 <= c <= 90 then Some(c as nat - 65)
    else if 97 <= c <= 122 then Some(c as nat - 97 + 26)
    else if 48 <= c <= 57 then Some(c as nat - 48 + 52)
    else if c == 43 then Some(62)
    else if c == 47 then Some(63)
    else None
  }

  /** What is not there counts as zero bits. */
  function Octet(d: seq<byte>, i: nat): nat {
    if i < |d| then d[i] as nat else 0
  }

  /** The 24-bit group from octet i. */
  function Group(d: seq<byte>, i: nat): nat {
    Octet(d, i) * 0x1_0000 + Octet(d, i + 1) * 0x100 + Octet(d, i + 2)
  }

  /** Its four characters. */
  function Quad(d: seq<byte>, i: nat): (q: seq<byte>)
    ensures |q| == 4
  {
    var n := Group(d, i);
    [Letter(n / 0x4_0000 % 64), Letter(n / 0x1000 % 64),
     if i + 1 < |d| then Letter(n / 64 % 64) else PAD, if i + 2 < |d| then Letter(n % 64) else PAD]
  }

  function EncodedFrom(d: seq<byte>, i: nat): seq<byte>
    decreases |d| - i
  {
    if i >= |d| then [] else Quad(d, i) + EncodedFrom(d, i + 3)
  }

  function Encoded(d: seq<byte>): seq<byte> {
    EncodedFrom(d, 0)
  }

  lemma {:induction false} EncodedLength(d: seq<byte>, i: nat)
    requires i <= |d|
    ensures |EncodedFrom(d, i)| == 4 * ((|d| - i + 2) / 3)
    decreases |d| - i
  {
    if i + 3 <= |d| {
      EncodedLength(d, i + 3);
    }
  }

  /** A group of four characters: three octets, or two or one where it ends in one or two pads. */
  function DecodeQuad(a: byte, b: byte, c: byte, d: byte): Option<seq<byte>> {
    match (LetterValue(a), LetterValue(b), LetterValue(c), LetterValue(d))
    case (Some(w), Some(x), Some(y), Some(z)) => Some([Join(w, x, 4), Join(x, y, 16), Join(y, z, 64)])
    case (Some(w), Some(x), Some(y), None) => if d == PAD then Some([Join(w, x, 4), Join(x, y, 16)]) else None
    case (Some(w), Some(x), None, None) => if c == d == PAD then Some([Join(w, x, 4)]) else None
    case _ => None
  }

  /** The octet of the low bits of x and the high bits of y. */
  function Join(x: nat, y: nat, m: nat): byte
    requires m == 4 || m == 16 || m == 64
  {
    (x * m % 0x100 + y * m / 64 % m) as byte
  }

  /** Pads end the text. */
  function Decoded(s: seq<byte>): Option<seq<byte>> {
    if s == [] then Some([])
    else if |s| < 4 then None
    else
      match (DecodeQuad(s[0], s[1], s[2], s[3]), Decoded(s[4..]))
      case (Some(x), Some(y)) => if s[3] == PAD && |s| > 4 then None else Some(x + y)
      case _ => None
  }

  lemma LetterBack(v: nat)
    requires v < 64
    ensures LetterValue(Letter(v)) == Some(v) && Letter(v) != PAD && LetterValue(PAD) == None
  {
  }

  /** The six-bit digits of a group: a above the rest, and so on. */
  lemma TopDigits(a: nat, b: nat, c: nat, r: nat)
    requires a < 64 && b < 64 && r < 0x1000
    ensures var n := a * 0x4_0000 + b * 0x1000 + r; n / 0x4_0000 % 64 == a && n / 0x1000 % 64 == b
  {
    var n := a * 0x4_0000 + b * 0x1000 + r;
    assert n / 0x4_0000 == a;
    assert n / 0x1000 == a * 64 + b;
  }

  lemma LowDigits(h: nat, c: nat, d: nat)
    requires c < 64 && d < 64
    ensures var n := h * 0x1000 + c * 64 + d; n / 64 % 64 == c && n % 64 == d
  {
    var n := h * 0x1000 + c * 64 + d;
    assert n / 64 == h * 64 + c;
  }

  lemma Digits(x: nat, y: nat, z: nat)
    requires x < 0x100 && y < 0x100 && z < 0x100
    ensures var n := x * 0x1_0000 + y * 0x100 + z;
            && n / 0x4_0000 % 64 == x / 4 && n / 0x1000 % 64 == x % 4 * 16 + y / 16
            && n / 64 % 64 == y % 16 * 4 + z / 64 && n % 64 == z % 64
  {
    var a, b, c, d := x / 4, x % 4 * 16 + y / 16, y % 16 * 4 + z / 64, z % 64;
    assert x * 0x1_0000 == x / 4 * 0x4_0000 + x % 4 * 16 * 0x1000;
    assert y * 0x100 == y / 16 * 0x1000 + y % 16 * 4 * 64;
    TopDigits(a, b, c, c * 64 + d);
    LowDigits(a * 64 + b, c, d);
  }

  /** The octets again. */
  lemma FirstOctet(x: nat, y: nat)
    requires x < 0x100 && y < 0x100
    ensures Join(x / 4, x % 4 * 16 + y / 16, 4) as nat == x
  {
  }

  lemma SecondOctet(x: nat, y: nat, z: nat)
    requires x < 4 && y < 0x100 && z < 0x100
    ensures Join(x * 16 + y / 16, y % 16 * 4 + z / 64, 16) as nat == y
  {
  }

  lemma ThirdOctet(y: nat, z: nat)
    requires y < 16 && z < 0x100
    ensures Join(y * 4 + z / 64, z % 64, 64) as nat == z
  {
  }

  lemma LettersBack(w: nat, x: nat, y: nat, z: nat)
    requires w < 64 && x < 64 && y < 64 && z < 64
    ensures DecodeQuad(Letter(w), Letter(x), Letter(y), Letter(z)) == Some([Join(w, x, 4), Join(x, y, 16), Join(y, z, 64)])
    ensures DecodeQuad(Letter(w), Letter(x), Letter(y), PAD) == Some([Join(w, x, 4), Join(x, y, 16)])
    ensures DecodeQuad(Letter(w), Letter(x), PAD, PAD) == Some([Join(w, x, 4)])
  {
    LetterBack(w);
    LetterBack(x);
    LetterBack(y);
    LetterBack(z);
  }

  lemma QuadIs(d: seq<byte>, i: nat)
    requires i < |d|
    ensures var x, y, z, q := Octet(d, i), Octet(d, i + 1), Octet(d, i + 2), Quad(d, i);
            && q[0] == Letter(x / 4) && q[1] == Letter(x % 4 * 16 + y / 16)
            && q[2] == (if i + 1 < |d| then Letter(y % 16 * 4 + z / 64) else PAD)
            && q[3] == (if i + 2 < |d| then Letter(z % 64) else PAD)
  {
    Digits(Octet(d, i), Octet(d, i + 1), Octet(d, i + 2));
  }

  lemma QuadBack(d: seq<byte>, i: nat, k: nat)
    requires i < k <= |d| && (k == i + 3 || k == |d| < i + 3)
    ensures var q := Quad(d, i); DecodeQuad(q[0], q[1], q[2], q[3]) == Some(d[i..k]) && (q[3] == PAD <==> k < i + 3)
  {
    var x, y, z := Octet(d, i), Octet(d, i + 1), Octet(d, i + 2);
    QuadIs(d, i);
    var w0, w1, w2, w3 := DigitsOf(x, y, z);
    DigitsBack(d, i, k, w0, w1, w2, w3);
  }

  lemma DigitsOf(x: nat, y: nat, z: nat) returns (w0: nat, w1: nat, w2: nat, w3: nat)
    requires x < 0x100 && y < 0x100 && z < 0x100
    ensures w0 == x / 4 < 64 && w1 == x % 4 * 16 + y / 16 < 64 && w2 == y % 16 * 4 + z / 64 < 64 && w3 == z % 64
    ensures Join(w0, w1, 4) as nat == x && Join(w1, w2, 16) as nat == y && Join(w2, w3, 64) as nat == z
  {
    w0, w1, w2, w3 := x / 4, x % 4 * 16 + y / 16, y % 16 * 4 + z / 64, z % 64;
    FirstOctet(x, y);
    SecondOctet(x % 4, y, z);
    ThirdOctet(y % 16, z);
  }

  lemma DigitsBack(d: seq<byte>, i: nat, k: nat, w: nat, x: nat, y: nat, z: nat)
    requires i < k <= |d| && (k == i + 3 || k == |d| < i + 3) && w < 64 && x < 64 && y < 64 && z < 64
    requires var q := Quad(d, i);
             && q[0] == Letter(w) && q[1] == Letter(x) && q[2] == (if i + 1 < |d| then Letter(y) else PAD)
             && q[3] == (if i + 2 < |d| then Letter(z) else PAD)
    requires Join(w, x, 4) as nat == Octet(d, i) && Join(x, y, 16) as nat == Octet(d, i + 1) && Join(y, z, 64) as nat == Octet(d, i + 2)
    ensures var q := Quad(d, i); DecodeQuad(q[0], q[1], q[2], q[3]) == Some(d[i..k]) && (q[3] == PAD <==> k < i + 3)
  {
    LettersBack(w, x, y, z);
    LetterBack(z);
    if k == i + 3 {
      assert d[i..k] == [d[i], d[i + 1], d[i + 2]];
    } else if k == i + 2 {
      assert d[i..k] == [d[i], d[i + 1]];
    } else {
      assert d[i..k] == [d[i]];
    }
  }

  lemma AppendDecoded(q: seq<byte>, s: seq<byte>)
    requires |q| == 4 && (q[3] == PAD ==> s == []) && DecodeQuad(q[0], q[1], q[2], q[3]).Some? && Decoded(s).Some?
    ensures Decoded(q + s) == Some(DecodeQuad(q[0], q[1], q[2], q[3]).value + Decoded(s).value)
  {
    assert (q + s)[4..] == s;
  }

  /** Decoding undoes encoding, from any group on. */
  lemma {:induction false} DecodedEncoded(d: seq<byte>, i: nat)
    requires i <= |d|
    ensures Decoded(EncodedFrom(d, i)) == Some(d[i..])
    decreases |d| - i
  {
    if i < |d| {
      var k := if i + 3 <= |d| then i + 3 else |d|;
      QuadBack(d, i, k);
      DecodedEncoded(d, k);
      assert EncodedFrom(d, k) == EncodedFrom(d, i + 3);
      assert d[i..k] + d[k..] == d[i..];
      AppendDecoded(Quad(d, i), EncodedFrom(d, k));
    } else {
      assert d[i..] == [];
    }
  }
}
