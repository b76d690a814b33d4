/** h264_decode_annexb (ltRtspService/bit/h264.h): it takes the emulation prevention bytes out of a NAL unit, so that
    what the parsers read is the RBSP. Clause 7.4.1.1 of ITU-T H.264 puts them in. */
module AnnexB {
  import opened BitOps
  import opened KeySets

  /** The bytes of the payload with 3 put before each byte up to 3 that follows two zeros; `zeros` of them stand before. */
  function Escaped(r: seq<byte>, zeros: nat): seq<byte>
    decreases |r|, zeros
  {
    if r == [] then []
    else if zeros >= 2 && r[0] <= 3 then [3] + Escaped(r, 0)
    else [r[0]] + Escaped(r[1..], if r[0] == 0 then zeros + 1 else 0)
  }

  /** The payload's last byte is 0: then a 3 ends the NAL unit. */
  predicate EndsInZero(r: seq<byte>) {
    r != [] && r[|r| - 1] == 0
  }

  function Escape(r: seq<byte>): seq<byte> {
    Escaped(r, 0) + if EndsInZero(r) then [3] else []
  }

  /** What h264_decode_annexb makes of any bytes: it wants a byte to follow the three. */
  function Strip(s: seq<byte>): seq<byte> {
    if s == [] then []
    else if |s| > 3 && s[0] == 0 && s[1] == 0 && s[2] == 3 then [0, 0] + Strip(s[3..])
    else [s[0]] + Strip(s[1..])
  }

  method DecodeAnnexB(dst: array<byte>, src: array<byte>, srclen: int) returns (dstlen: nat)
    requires srclen <= src.Length && srclen <= dst.Length && dst != src
    modifies dst
    ensures dstlen <= dst.Length && dst[..dstlen] == Strip(src[..if srclen < 0 then 0 else srclen])
  {
    ghost var s := src[..if srclen < 0 then 0 else srclen];
    var i: nat := 0;
    dstlen := 0;
    while i < srclen
      invariant i <= |s| && dstlen <= i && src[..|s|] == s
      invariant Strip(s) == dst[..dstlen] + Strip(s[i..])
      decreases srclen - i
    {
      i, dstlen := Turn(dst, src, srclen, i, dstlen, Strip(s));
    }
  }

  /** One turn of the loop: the pointers into source and destination. */
  method Turn(dst: array<byte>, src: array<byte>, srclen: nat, i: nat, at: nat, ghost all: seq<byte>) returns (i': nat, at': nat)
    requires i < srclen <= src.Length && srclen <= dst.Length && dst != src && at <= i
    requires all == dst[..at] + Strip(src[..srclen][i..])
    modifies dst
    ensures i < i' <= srclen && at' <= i' && all == dst[..at'] + Strip(src[..srclen][i'..])
  {
    ghost var s, before := src[..srclen], dst[..at];
    StripOnce(s, i);
    if i < srclen - 3 && src[i] == 0 && src[i + 1] == 0 && src[i + 2] == 3 {
      at' := Put(dst, at, 0);
      at' := Put(dst, at', 0);
      i' := i + 3;
      Associate(before, [0, 0], Strip(s[i'..]));
      assert dst[..at'] == before + [0, 0];
    } else {
      at' := Put(dst, at, src[i]);
      i' := i + 1;
      Associate(before, [s[i]], Strip(s[i'..]));
    }
  }

  /** *dst++ = b */
  method Put(dst: array<byte>, at: nat, b: byte) returns (next: nat)
    requires at < dst.Length
    modifies dst
    ensures next == at + 1 && dst[..next] == old(dst[..at]) + [b]
  {
    dst[at] := b;
    next := at + 1;
  }

  lemma StripOnce(s: seq<byte>, i: nat)
    requires i < |s|
    ensures Strip(s[i..]) == if i + 3 < |s| && s[i] == 0 && s[i + 1] == 0 && s[i + 2] == 3 then [0, 0] + Strip(s[i + 3..])
                             else [s[i]] + Strip(s[i + 1..])
  {
    var t := s[i..];
    assert t[1..] == s[i + 1..];
    if i + 3 < |s| {
      assert t[3..] == s[i + 3..];
    }
  }

  function Zeros(n: nat): seq<byte> {
    seq(n, _ => 0)
  }

  /** A byte that is not 0 is copied, and so are the zeros before it, unless it is a 3 after two of them. */
  lemma CopyByte(zeros: nat, b: byte, s: seq<byte>)
    requires zeros <= 2 && b != 0 && (zeros == 2 ==> b > 3 || (b == 3 && s == []))
    ensures Strip(Zeros(zeros) + [b] + s) == Zeros(zeros) + [b] + Strip(s)
  {
    var t := [b] + s;
    assert t[1..] == s;
    assert Strip(t) == [b] + Strip(s);
    if zeros == 1 {
      assert Zeros(1) + [b] + s == [0] + t;
      CopyZero1(t);
    } else if zeros == 2 {
      assert Zeros(2) + [b] + s == [0] + ([0] + t);
      CopyZero1(t);
      CopyZero2(t);
    } else {
      assert Zeros(0) + [b] + s == t;
    }
  }

  lemma CopyZero1(t: seq<byte>)
    requires t != [] && t[0] != 0
    ensures Strip([0] + t) == [0] + Strip(t)
  {
    assert ([0] + t)[1..] == t;
  }

  lemma CopyZero2(t: seq<byte>)
    requires t != [] && t[0] != 0 && (t[0] != 3 || |t| == 1)
    ensures Strip([0] + ([0] + t)) == [0] + Strip([0] + t)
  {
    assert ([0] + ([0] + t))[1..] == [0] + t;
  }

  lemma StripThree(s: seq<byte>)
    requires s != []
    ensures Strip(Zeros(2) + [3] + s) == [0, 0] + Strip(s)
  {
    assert (Zeros(2) + [3] + s)[3..] == s;
  }

  /** Some zeros, the payload escaped after them, and what ends the NAL unit. */
  function Run(zeros: nat, r: seq<byte>, tail: seq<byte>): seq<byte> {
    Zeros(zeros) + Escaped(r, zeros) + tail
  }

  function Plain(zeros: nat, r: seq<byte>, tail: seq<byte>): seq<byte> {
    Zeros(zeros) + r + tail
  }

  lemma {:induction false} RunThree(r: seq<byte>, tail: seq<byte>)
    requires r != [] && r[0] <= 3
    ensures Run(2, r, tail) == Zeros(2) + [3] + Run(0, r, tail) && Plain(2, r, tail) == [0, 0] + Plain(0, r, tail)
  {
    assert Escaped(r, 2) == [3] + Escaped(r, 0);
  }

  lemma {:induction false} RunZero(zeros: nat, r: seq<byte>, tail: seq<byte>)
    requires r != [] && r[0] == 0 && zeros < 2
    ensures Run(zeros, r, tail) == Run(zeros + 1, r[1..], tail) && Plain(zeros, r, tail) == Plain(zeros + 1, r[1..], tail)
  {
    assert Escaped(r, zeros) == [0] + Escaped(r[1..], zeros + 1);
    assert Zeros(zeros + 1) == Zeros(zeros) + [0];
    assert r == [0] + r[1..];
  }

  lemma {:induction false} RunByte(zeros: nat, r: seq<byte>, tail: seq<byte>)
    requires r != [] && r[0] != 0 && (zeros >= 2 ==> r[0] > 3)
    ensures Run(zeros, r, tail) == Zeros(zeros) + [r[0]] + Run(0, r[1..], tail)
    ensures Plain(zeros, r, tail) == Zeros(zeros) + [r[0]] + Plain(0, r[1..], tail)
  {
    assert Escaped(r, zeros) == [r[0]] + Escaped(r[1..], 0);
    assert r == [r[0]] + r[1..];
  }

  /** Stripping what was escaped behind some zeros. */
  lemma {:induction false} StripEscaped(r: seq<byte>, zeros: nat, tail: seq<byte>)
    requires zeros <= 2 && tail == (if (r == [] && zeros > 0) || EndsInZero(r) then [3] else [])
    ensures Strip(Run(zeros, r, tail)) == Plain(zeros, r, tail)
    decreases |r|, zeros
  {
    if r == [] {
      if zeros > 0 {
        CopyByte(zeros, 3, []);
        assert Run(zeros, r, tail) == Zeros(zeros) + [3] + [];
      }
    } else if zeros == 2 && r[0] <= 3 {
      StripEscaped(r, 0, tail);
      RunThree(r, tail);
      RunNotEmpty(r, tail);
      StripThree(Run(0, r, tail));
    } else if r[0] == 0 {
      StripEscaped(r[1..], zeros + 1, tail);
      RunZero(zeros, r, tail);
    } else {
      StripEscaped(r[1..], 0, tail);
      RunByte(zeros, r, tail);
      CopyByte(zeros, r[0], Run(0, r[1..], tail));
    }
  }

  lemma {:induction false} RunNotEmpty(r: seq<byte>, tail: seq<byte>)
    requires r != []
    ensures Run(0, r, tail) != []
  {
    assert Escaped(r, 0) != [];
  }

  /** A payload comes back but for a 3 that is left at its end if it ends in a zero. */
  lemma StripEscape(r: seq<byte>)
    ensures Strip(Escape(r)) == r + if EndsInZero(r) then [3] else []
  {
    var tail := if EndsInZero(r) then [3] else [];
    StripEscaped(r, 0, tail);
    assert Run(0, r, tail) == Escape(r);
    assert Plain(0, r, tail) == r + tail;
  }

  /** It comes back if and only if it does not end in a zero. */
  lemma StripRight(r: seq<byte>)
    ensures Strip(Escape(r)) == r <==> !EndsInZero(r)
  {
    StripEscape(r);
    if EndsInZero(r) {
      assert |Strip(Escape(r))| == |r| + 1;
    }
  }

  // ---------- what escaping is for ----------

  /** No start code stands in the bytes: after two zeros comes nothing less than 3. */
  predicate Clean(s: seq<byte>) {
    forall i :: 0 <= i && i + 2 < |s| && s[i] == 0 && s[i + 1] == 0 ==> s[i + 2] >= 3
  }

  lemma {:induction false} CleanBehind(zeros: nat, b: byte, s: seq<byte>)
    requires zeros <= 2 && b != 0 && (zeros == 2 ==> b >= 3) && Clean(s)
    ensures Clean(Zeros(zeros) + [b] + s)
  {
    var t := Zeros(zeros) + [b] + s;
    forall i | 0 <= i && i + 2 < |t| && t[i] == 0 && t[i + 1] == 0
      ensures t[i + 2] >= 3
    {
      if i > zeros {
        var k := i - zeros - 1;
        assert t[i] == s[k] && t[i + 1] == s[k + 1] && t[i + 2] == s[k + 2];
      }
    }
  }

  /** An escaped payload is clean, whatever it is. */
  lemma {:induction false} RunClean(r: seq<byte>, zeros: nat, tail: seq<byte>)
    requires zeros <= 2 && (tail == [] || tail == [3])
    ensures Clean(Run(zeros, r, tail))
    decreases |r|, zeros
  {
    if r == [] {
      assert Run(zeros, r, tail) == Zeros(zeros) + tail;
      if tail != [] {
        CleanBehind(zeros, 3, []);
        assert Zeros(zeros) + tail == Zeros(zeros) + [3] + [];
      }
    } else if zeros == 2 && r[0] <= 3 {
      RunClean(r, 0, tail);
      RunThree(r, tail);
      CleanBehind(2, 3, Run(0, r, tail));
    } else if r[0] == 0 {
      RunClean(r[1..], zeros + 1, tail);
      RunZero(zeros, r, tail);
    } else {
      RunClean(r[1..], 0, tail);
      RunByte(zeros, r, tail);
      CleanBehind(zeros, r[0], Run(0, r[1..], tail));
    }
  }

  lemma EscapeClean(r: seq<byte>)
    ensures Clean(Escape(r)) && (Escape(r) != [] ==> Escape(r)[|Escape(r)| - 1] != 0)
  {
    var tail := if EndsInZero(r) then [3] else [];
    RunClean(r, 0, tail);
    assert Run(0, r, tail) == Escape(r);
    if r != [] && tail == [] {
      EscapedEnd(r, 0);
    }
  }

  lemma {:induction false} EscapedEnd(r: seq<byte>, zeros: nat)
    requires r != []
    ensures var e := Escaped(r, zeros); e != [] && e[|e| - 1] == r[|r| - 1]
    decreases |r|, zeros
  {
    if zeros >= 2 && r[0] <= 3 {
      EscapedEnd(r, 0);
    } else if |r| > 1 {
      EscapedEnd(r[1..], if r[0] == 0 then zeros + 1 else 0);
    }
  }

  /** The byte taken out is 3, and two zeros before it stay. */
  lemma StripExample()
    ensures Strip([0, 0, 3, 1]) == [0, 0, 1] && Strip([0, 0, 3]) == [0, 0, 3] && Strip([0, 0, 2, 1]) == [0, 0, 2, 1]
    ensures Escape([0, 0, 1]) == [0, 0, 3, 1] && Escape([0, 0, 4]) == [0, 0, 4]
  {
    assert [0, 0, 3, 1][3..] == [1];
    assert Strip([1]) == [1] + Strip([]);
    Unstripped([0, 0, 3]);
    Unstripped([0, 0, 2, 1]);
    assert Escaped([1], 2) == [3] + Escaped([1], 0);
    assert Escaped([4], 2) == [4] + Escaped([], 0);
    assert [0, 0, 1][1..] == [0, 1] && [0, 1][1..] == [1] && [0, 0, 4][1..] == [0, 4] && [0, 4][1..] == [4];
  }

  lemma {:induction false} Unstripped(s: seq<byte>)
    requires forall i :: 0 <= i < |s| && i + 3 < |s| ==> !(s[i] == 0 && s[i + 1] == 0 && s[i + 2] == 3)
    ensures Strip(s) == s
    decreases |s|
  {
    if s != [] {
      var t := s[1..];
      forall i | 0 <= i < |t| && i + 3 < |t|
        ensures !(t[i] == 0 && t[i + 1] == 0 && t[i + 2] == 3)
      {
        assert t[i] == s[i + 1];
      }
      Unstripped(t);
    }
  }
}
