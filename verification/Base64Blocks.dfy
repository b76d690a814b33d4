/** What repeated calls of load_block (ltRtspService/BaseEncoder.h) make of a text. */
module Base64Blocks {
  import opened BitOps
  import opened Base64Format
  import opened Options

  const FILL: byte := 0xFF

  predicate IsBase64(c: byte) {
    65 <= c <= 90 || 97 <= c <= 122 || 48 <= c <= 57 || c == PAD || c == 43 || c == 47
  }

  /** The Base64 characters from lo to hi. */
  ghost function Kept(s: seq<byte>, lo: nat, hi: nat): seq<byte>
    requires hi <= |s| || hi <= lo
    decreases hi
  {
    if hi <= lo then [] else Kept(s, lo, hi - 1) + if IsBase64(s[hi - 1]) then [s[hi - 1]] else []
  }

  lemma {:induction false} KeptSplit(s: seq<byte>, lo: nat, mid: nat, hi: nat)
    requires lo <= mid <= hi <= |s|
    ensures Kept(s, lo, hi) == Kept(s, lo, mid) + Kept(s, mid, hi)
    decreases hi
  {
    if mid < hi {
      KeptSplit(s, lo, mid, hi - 1);
    }
  }

  /** Where a call ends that has come from lo to hi: after four characters, or at the end of the text. */
  ghost function Next(s: seq<byte>, lo: nat, hi: nat): (r: nat)
    requires hi <= |s| || hi == lo
    ensures hi <= r && (r <= |s| || r == lo)
    decreases |s| - hi
  {
    if hi >= |s| || |Kept(s, lo, hi)| >= 4 then hi else Next(s, lo, hi + 1)
  }

  /** The cursor after n calls from the start. */
  ghost function Cursor(s: seq<byte>, n: nat): (r: nat)
    ensures r <= |s|
  {
    if n == 0 then 0 else Next(s, Cursor(s, n - 1), Cursor(s, n - 1))
  }

  /** The characters the n-th call finds, counted from 0. */
  ghost function Found(s: seq<byte>, n: nat): seq<byte> {
    Kept(s, Cursor(s, n), Cursor(s, n + 1))
  }

  /** Four bytes with the rest filled up. */
  ghost function Padded(q: seq<byte>): seq<byte>
    requires |q| <= 4
  {
    q + seq(4 - |q|, _ => FILL)
  }

  ghost function Min(a: nat, b: nat): nat {
    if a < b then a else b
  }

  lemma {:induction false} NextFinds(s: seq<byte>, lo: nat, hi: nat)
    requires lo <= hi <= |s| && |Kept(s, lo, hi)| <= 4
    ensures |Kept(s, lo, Next(s, lo, hi))| <= 4
    ensures |Kept(s, lo, Next(s, lo, hi))| == 4 || Next(s, lo, hi) == |s|
    decreases |s| - hi
  {
    if hi < |s| && |Kept(s, lo, hi)| < 4 {
      NextFinds(s, lo, hi + 1);
    }
  }

  /** One turn of the scan. */
  lemma Scanned(s: seq<byte>, lo: nat, hi: nat, kept: seq<byte>)
    requires lo <= hi < |s| && kept == Kept(s, lo, hi) && |kept| < 4
    ensures Next(s, lo, hi) == Next(s, lo, hi + 1)
    ensures Kept(s, lo, hi + 1) == if IsBase64(s[hi]) then kept + [s[hi]] else kept
  {
  }

  lemma ScanEnds(s: seq<byte>, lo: nat, hi: nat)
    requires (hi <= |s| || hi == lo) && (hi >= |s| || |Kept(s, lo, hi)| >= 4)
    ensures Next(s, lo, hi) == hi
  {
  }

  /** The calls split the Base64 characters into consecutive groups of four, whatever lies between them. */
  lemma {:induction false} CallsSplit(s: seq<byte>, n: nat)
    ensures var k := Kept(s, 0, |s|); Kept(s, 0, Cursor(s, n)) == k[..Min(4 * n, |k|)]
  {
    var k := Kept(s, 0, |s|);
    if n > 0 {
      CallsSplit(s, n - 1);
      var lo, hi := Cursor(s, n - 1), Cursor(s, n);
      NextFinds(s, lo, lo);
      KeptSplit(s, 0, lo, hi);
      KeptSplit(s, 0, hi, |s|);
      KeptSplit(s, 0, lo, |s|);
      assert Kept(s, 0, hi) == k[..|Kept(s, 0, hi)|];
    }
  }

  /** The group of the n-th call, filled up where the text has ended. */
  lemma FoundGroup(s: seq<byte>, n: nat)
    ensures var k := Kept(s, 0, |s|); Found(s, n) == k[Min(4 * n, |k|)..Min(4 * n + 4, |k|)]
  {
    CallsSplit(s, n);
    CallsSplit(s, n + 1);
    KeptSplit(s, 0, Cursor(s, n), Cursor(s, n + 1));
  }

  /** What n calls hand out, one after the other. */
  ghost function Blocks(s: seq<byte>, n: nat): seq<byte>
  {
    if n == 0 then [] else Blocks(s, n - 1) + (FoundGroup(s, n - 1); Padded(Found(s, n - 1)))
  }

  lemma {:induction false} BlocksAreKept(s: seq<byte>, n: nat)
    requires 4 * n <= |Kept(s, 0, |s|)|
    ensures Blocks(s, n) == Kept(s, 0, |s|)[..4 * n]
  {
    if n > 0 {
      var k := Kept(s, 0, |s|);
      BlocksAreKept(s, n - 1);
      FoundGroup(s, n - 1);
      assert Found(s, n - 1) == k[4 * n - 4..4 * n];
      assert Padded(Found(s, n - 1)) == k[4 * n - 4..4 * n];
      assert k[..4 * n - 4] + k[4 * n - 4..4 * n] == k[..4 * n];
    }
  }

  /** e with bytes that are not Base64 characters put in anywhere. */
  ghost predicate Interspersed(e: seq<byte>, s: seq<byte>) {
    if s == [] then e == []
    else
      var e', c := if e == [] then [] else e[..|e| - 1], s[|s| - 1];
      if IsBase64(c) then e != [] && e[|e| - 1] == c && Interspersed(e', s[..|s| - 1])
      else Interspersed(e, s[..|s| - 1])
  }

  lemma {:induction false} KeptPrefix(s: seq<byte>, t: seq<byte>, hi: nat)
    requires hi <= |s| <= |t| && t[..|s|] == s
    ensures Kept(s, 0, hi) == Kept(t, 0, hi)
  {
    if hi > 0 {
      KeptPrefix(s, t, hi - 1);
      assert s[hi - 1] == t[..|s|][hi - 1];
    }
  }

  lemma {:induction false} InterspersedKept(e: seq<byte>, s: seq<byte>)
    requires Interspersed(e, s)
    ensures Kept(s, 0, |s|) == e
    decreases |s|
  {
    if s != [] {
      var s' := s[..|s| - 1];
      KeptPrefix(s', s, |s'|);
      if IsBase64(s[|s| - 1]) {
        InterspersedKept(e[..|e| - 1], s');
      } else {
        InterspersedKept(e, s');
      }
    }
  }

  /** The encoding of d with other bytes put in anywhere: the calls hand out groups that decode to d. */
  lemma BlocksDecode(d: seq<byte>, s: seq<byte>)
    requires Interspersed(Encoded(d), s)
    ensures Decoded(Blocks(s, (|d| + 2) / 3)) == Some(d)
  {
    InterspersedKept(Encoded(d), s);
    EncodedLength(d, 0);
    BlocksAreKept(s, (|d| + 2) / 3);
    DecodedEncoded(d, 0);
    assert Encoded(d)[..4 * ((|d| + 2) / 3)] == Encoded(d);
    assert d[0..] == d;
  }
}
