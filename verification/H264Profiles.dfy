/** Which parameter sets the parser of H264Sps reads right: those whose profile it tells right and that send no
    scaling matrix. What it makes of the others. */
module H264Profiles {
  import opened Powers
  import opened BitOps
  import opened BitCursor
  import opened ExpGolomb
  import opened Options
  import opened BitLayout
  import opened ItemBits
  import opened H264Syntax
  import opened H264SpsProof
  import H264Sps

  type Stream = BitCursor.Stream
  type Parsed = H264Sps.Parsed
  type Record = H264Sps.Record

  /** Among the profiles of the standard only 44, 83 and 86 are not told right. */
  lemma ProfilesTold(profile: nat)
    requires HasHighElements(profile) || profile == 66 || profile == 77 || profile == 88
    ensures Told(profile) <==> profile != 44 && profile != 83 && profile != 86
  {
  }

  // ---------- the elements of the high profiles overlooked ----------

  /** Profiles 44, 83 and 86 have these elements too, but the parser looks for profile_idc 100 or more only: below it,
      chroma_format_idc is taken for log2_max_frame_num_minus4. */
  lemma HighMissed(s: Stream, v: SpsSyntax, r: Record, end: nat)
    requires SpsOk(v) && v.id < 32 && HasHighElements(v.profile) && v.profile < 100 && Stands(s, 0, SpsItems(v), end)
    ensures H264Sps.ParseSps(s, r).parsed.rec.log2MaxFrameNum == v.high.value.chromaFormat
  {
    HeaderBack(s, v, end);
    var p := H264Sps.ParseProfile(s, H264Sps.Parsed(r, 0));
    RestMissed(s, H264Sps.Parsed(p.rec.(scalingMatrixPresent := 0), s.PastUe(p.at)), v, end);
  }

  lemma RestMissed(s: Stream, p: Parsed, v: SpsSyntax, end: nat)
    requires SpsOk(v) && HasHighElements(v.profile) && p.rec.profileIdc < 100 && Stands(s, p.at, RestItems(v), end)
    ensures H264Sps.ParseRest(s, p).rec.log2MaxFrameNum == v.high.value.chromaFormat
  {
    PocFieldsKept(s, H264Sps.ParsePoc(s, p));
    var j, xs := NextUe(s, p.at, RestItems(v), end);
    FrameNumParsed(s, p);
  }

  // ---------- a scaling matrix overlooked ----------

  /** How many lists are absent before the first one sent. */
  ghost function Absent(l: Lists): nat {
    if l.Lists? && l.list.None? then 1 + Absent(l.more) else 0
  }

  ghost predicate SomeSent(l: Lists) {
    l.Lists? && (l.list.Some? || SomeSent(l.more))
  }

  /** The elements from the first delta_scale on. */
  ghost function FirstDeltas(l: Lists, xs: Items): Items
    requires SomeSent(l)
  {
    if l.list.None? then FirstDeltas(l.more, xs) else OffsetItems(l.list.value, ListItems(l.more, xs))
  }

  /** What stands for log2_max_frame_num_minus4 in the bits of the lists and the elements `xs` after them: the flags of
      the absent lists are taken for its leading zeros, and 4 of them already make it too great. */
  ghost function MatrixFrameNum(l: Lists, xs: Items): int
    requires 4 <= Total(xs)
  {
    var k := Absent(l);
    if k >= 4 || !SomeSent(l) then 12
    else
      DeltasLong(l, xs);
      H264Sps.AtMost12(Pow2(k) - 1 + FirstBits(FirstDeltas(l, xs), k))
  }

  lemma {:induction false} OffsetsLong(o: Offsets, xs: Items)
    ensures Total(xs) <= Total(OffsetItems(o, xs))
  {
    if o.Offset? {
      OffsetsLong(o.more, xs);
    }
  }

  lemma {:induction false} ListsLong(l: Lists, xs: Items)
    ensures Total(xs) <= Total(ListItems(l, xs))
  {
    if l.Lists? {
      ListsLong(l.more, xs);
      if l.list.Some? {
        OffsetsLong(l.list.value, ListItems(l.more, xs));
      }
    }
  }

  lemma {:induction false} DeltasLong(l: Lists, xs: Items)
    requires SomeSent(l)
    ensures Total(xs) <= Total(FirstDeltas(l, xs))
  {
    if l.list.None? {
      DeltasLong(l.more, xs);
    } else {
      ListsLong(l.more, xs);
      OffsetsLong(l.list.value, ListItems(l.more, xs));
    }
  }

  lemma BitRead(s: Stream, i: nat)
    ensures s.Value(i, 1) == Num(s.At(i))
  {
    assert s.Value(i, 1) == 2 * s.Value(i, 0) + Num(s.At(i + 1 - 1));
  }

  /** The flags before the first list sent, and its own. */
  lemma {:induction false} FlagsRead(s: Stream, i: nat, l: Lists, xs: Items, end: nat)
    requires SomeSent(l) && Stands(s, i, ListItems(l, xs), end)
    ensures Zeros(s, i, Absent(l)) && s.At(i + Absent(l)) && Stands(s, i + Absent(l) + 1, FirstDeltas(l, xs), end)
    decreases l
  {
    var j, ys := NextU(s, i, ListItems(l, xs), end);
    BitRead(s, i);
    if l.list.None? {
      FlagsRead(s, j, l.more, xs, end);
      ZerosMore(s, i, Absent(l.more));
    }
  }

  lemma ZerosMore(s: Stream, i: nat, z: nat)
    requires !s.At(i) && Zeros(s, i + 1, z)
    ensures Zeros(s, i, z + 1)
  {
  }

  /** The flags of lists that are all absent, and the zeros of the element after them. */
  lemma {:induction false} NoneRead(s: Stream, i: nat, l: Lists, n: nat, xs: Items, end: nat)
    requires !SomeSent(l) && Stands(s, i, ListItems(l, Then(Ue(n), xs)), end)
    ensures var z := Absent(l) + Prefix(n + 1); Zeros(s, i, z) && s.At(i + z)
    decreases l
  {
    if l.Lists? {
      var j, ys := NextU(s, i, ListItems(l, Then(Ue(n), xs)), end);
      BitRead(s, i);
      NoneRead(s, j, l.more, n, xs, end);
      ZerosMore(s, i, Absent(l.more) + Prefix(n + 1));
    } else {
      StandsFirst(s, i, Ue(n), xs, end);
    }
  }

  /** Four zeros or more are more than 12 for bs_read_ue, as long as they are not more than it can count. */
  lemma ManyZeros(s: Stream, i: nat, z: nat)
    requires 4 <= z <= 30 && Zeros(s, i, z) && s.At(i + z)
    ensures s.Ue(i) > 12
  {
    CountsZeros(s, i, 0, z);
    Pow2Monotone(4, z);
    assert Pow2(4) == 16;
  }

  lemma FewZeros(s: Stream, i: nat, z: nat)
    requires z < 4 && Zeros(s, i, z) && s.At(i + z)
    ensures s.Ue(i) == Pow2(z) - 1 + s.Value(i + z + 1, z)
  {
    CountsZeros(s, i, 0, z);
  }

  lemma {:induction false} AbsentBounded(l: Lists, i: nat, n: nat)
    requires ListsOk(l, i, n)
    ensures i + Absent(l) <= n && (!SomeSent(l) ==> i + Absent(l) == n)
    decreases l
  {
    if l.Lists? && l.list.None? {
      AbsentBounded(l.more, i + 1, n);
    }
  }

  lemma ListsRead(s: Stream, i: nat, l: Lists, log2: nat, xs: Items, end: nat)
    requires (ListsOk(l, 0, 8) || ListsOk(l, 0, 12)) && log2 <= 12 && 3 <= Total(xs)
    requires Stands(s, i, ListItems(l, Then(Ue(log2), xs)), end)
    ensures Total(Then(Ue(log2), xs)) >= 4 && H264Sps.AtMost12(s.Ue(i)) == MatrixFrameNum(l, Then(Ue(log2), xs))
  {
    var ys, k := Then(Ue(log2), xs), Absent(l);
    if ListsOk(l, 0, 8) {
      AbsentBounded(l, 0, 8);
    } else {
      AbsentBounded(l, 0, 12);
    }
    if !SomeSent(l) {
      NoneRead(s, i, l, log2, xs, end);
      SmallPrefix(log2);
      ManyZeros(s, i, k + Prefix(log2 + 1));
    } else {
      FlagsRead(s, i, l, ys, end);
      if k >= 4 {
        ManyZeros(s, i, k);
      } else {
        SentRead(s, i, l, ys, end);
      }
    }
  }

  lemma SentRead(s: Stream, i: nat, l: Lists, ys: Items, end: nat)
    requires SomeSent(l) && Absent(l) < 4 <= Total(ys) && Zeros(s, i, Absent(l)) && s.At(i + Absent(l))
    requires Stands(s, i + Absent(l) + 1, FirstDeltas(l, ys), end)
    ensures H264Sps.AtMost12(s.Ue(i)) == MatrixFrameNum(l, ys)
  {
    var k := Absent(l);
    FewZeros(s, i, k);
    DeltasLong(l, ys);
    FirstBitsRead(s, i + k + 1, FirstDeltas(l, ys), end, k);
  }

  lemma SmallPrefix(n: nat)
    requires n <= 12
    ensures Prefix(n + 1) <= 3
  {
    PrefixBounds(n + 1);
    assert Pow2(4) == 16;
    if Prefix(n + 1) > 3 {
      Pow2Monotone(4, Prefix(n + 1));
    }
  }

  /** The elements that follow log2_max_frame_num_minus4. */
  ghost function AfterFrameNum(v: SpsSyntax): Items
    requires SpsOk(v)
  {
    PocItems(v.poc, SizeItems(v, OptVuiItems(v.vui, End)))
  }

  lemma AfterLong(v: SpsSyntax)
    requires SpsOk(v)
    ensures 3 <= Total(AfterFrameNum(v))
  {
    var xs := SizeItems(v, OptVuiItems(v.vui, End));
    var ys := PocItems(v.poc, xs);
    assert 2 <= Total(xs.rest.rest) <= Total(xs.rest) <= Total(xs);
    assert Total(ys) == Length(ys.item) + Total(ys.rest);
    if v.poc.Lsb? {
      assert Total(ys.rest) == Length(ys.rest.item) + Total(xs);
    } else {
      assert Prefix(2) == Prefix(3) == 1;
    }
  }

  /** With a scaling matrix, of a profile that is told right, log2_max_frame_num_minus4 is read off its lists. */
  lemma MatrixMisread(s: Stream, v: SpsSyntax, r: Record, end: nat)
    requires InRange(v) && Told(v.profile) && HasMatrix(v) && Stands(s, 0, SpsItems(v), end)
    ensures var xs := Then(Ue(v.log2FrameNum), AfterFrameNum(v));
            && 4 <= Total(xs)
            && H264Sps.ParseSps(s, r).parsed.rec.log2MaxFrameNum == MatrixFrameNum(v.high.value.matrix.value, xs)
  {
    HeaderBack(s, v, end);
    var p := H264Sps.ParseProfile(s, H264Sps.Parsed(r, 0));
    var q := H264Sps.Parsed(p.rec.(scalingMatrixPresent := 0), s.PastUe(p.at));
    HighBack(s, q, v.high, Then(Ue(v.log2FrameNum), AfterFrameNum(v)), end);
    var p1 := H264Sps.ParseHigh(s, q);
    AfterLong(v);
    ListsRead(s, p1.at, v.high.value.matrix.value, v.log2FrameNum, AfterFrameNum(v), end);
    PocFieldsKept(s, H264Sps.ParsePoc(s, p1));
    FrameNumParsed(s, p1);
  }

  /** If the first list is sent, 0 is recorded; if none is, or not one of the first four, 12 is. */
  lemma MatrixCases(l: Lists, xs: Items)
    requires 4 <= Total(xs)
    ensures l.Lists? && l.list.Some? ==> MatrixFrameNum(l, xs) == 0
    ensures !SomeSent(l) || Absent(l) >= 4 ==> MatrixFrameNum(l, xs) == 12
  {
  }

  // ---------- the elements of the high profiles imagined ----------

  /** Looked for where they are not: log2_max_frame_num_minus4, the picture order count type, the reference frames and the
      gaps flag are taken for them, and one bit of the width is skipped. */
  lemma HighImagined(s: Stream, v: SpsSyntax, r: Record, end: nat)
    requires SpsOk(v) && v.id < 32 && v.high.None? && v.profile >= 100 && Stands(s, 0, SpsItems(v), end)
    requires v.log2FrameNum <= 12 && v.log2FrameNum != 3 && v.poc.Output? && v.width == 0 && v.height <= 12
    ensures H264Sps.ParseSps(s, r).parsed.rec.log2MaxFrameNum == v.height
  {
    HeaderBack(s, v, end);
    var p := H264Sps.ParseProfile(s, H264Sps.Parsed(r, 0));
    var q := H264Sps.Parsed(p.rec.(scalingMatrixPresent := 0), s.PastUe(p.at));
    HighTaken(s, q, v, end);
    var p1 := H264Sps.ParseHigh(s, q);
    PocFieldsKept(s, H264Sps.ParsePoc(s, p1));
    FrameNumParsed(s, p1);
  }

  lemma HighTaken(s: Stream, p: Parsed, v: SpsSyntax, end: nat)
    requires SpsOk(v) && v.high.None? && p.rec.profileIdc >= 100 && Stands(s, p.at, RestItems(v), end)
    requires v.log2FrameNum <= 12 && v.log2FrameNum != 3 && v.poc.Output? && v.width == 0 && v.height <= 12
    ensures s.Ue(H264Sps.ParseHigh(s, p).at) == v.height
  {
    var j, xs := NextUe(s, p.at, RestItems(v), end);
    j, xs := NextUe(s, j, xs, end);
    j, xs := NextUe(s, j, xs, end);
    j, xs := NextU(s, j, xs, end);
    j, xs := ZeroIsOneBit(s, j, xs, end);
    j, xs := NextUe(s, j, xs, end);
  }

  lemma ZeroIsOneBit(s: Stream, i: nat, xs: Items, end: nat) returns (j: nat, rest: Items)
    requires Stands(s, i, xs, end) && xs.Then? && xs.item == Ue(0)
    ensures j == i + 1 && rest == xs.rest && Stands(s, j, rest, end)
  {
    StandsFirst(s, i, xs.item, xs.rest, end);
    j, rest := i + 1, xs.rest;
  }

  // ---------- the exact conditions ----------

  /** log2_max_frame_num comes back if and only if what is taken for it, if it is not itself, happens to be the same. */
  lemma FrameNumRight(s: Stream, v: SpsSyntax, r: Record, end: nat)
    requires InRange(v) && (v.profile >= 100 ==> HasHighElements(v.profile)) && Stands(s, 0, SpsItems(v), end)
    ensures Total(Then(Ue(v.log2FrameNum), AfterFrameNum(v))) >= 4
    ensures H264Sps.ParseSps(s, r).parsed.rec.log2MaxFrameNum == v.log2FrameNum <==>
            if !Told(v.profile) then v.high.value.chromaFormat == v.log2FrameNum
            else HasMatrix(v) ==>
              MatrixFrameNum(v.high.value.matrix.value, Then(Ue(v.log2FrameNum), AfterFrameNum(v))) == v.log2FrameNum
  {
    AfterLong(v);
    if !Told(v.profile) {
      HighMissed(s, v, r, end);
    } else if HasMatrix(v) {
      MatrixMisread(s, v, r, end);
    } else {
      RecordedFrameNum(v, r);
      SpsRoundTrip(s, v, r, end);
    }
  }

  /** n lists, none of them sent. */
  function NoneSent(n: nat): Lists {
    if n == 0 then NoLists else Lists(None, NoneSent(n - 1))
  }

  /** A parameter set of any profile, with a scaling matrix or without: 4:2:0 video of 16 by 96 samples. */
  function Small(profile: nat, matrix: bool): SpsSyntax {
    SpsSyntax(profile, 0, 30, 0,
              if HasHighElements(profile) then Some(High(1, 0, 0, 0, 0, if matrix then Some(NoneSent(8)) else None)) else None,
              4, Output, 1, 0, 0, 5, None, 1, None, None)
  }

  /** What is recorded for its log2_max_frame_num_minus4, which is 4. */
  function SmallRecorded(profile: nat): nat {
    if profile < 100 then 1 else if HasHighElements(profile) then 12 else 5
  }

  /** Wherever it stands, it is read wrong unless its profile is told right and it has no scaling matrix. */
  lemma SmallMisread(s: Stream, profile: nat, matrix: bool, r: Record, end: nat)
    requires (!Told(profile) || matrix) && (matrix ==> HasHighElements(profile))
    requires SpsOk(Small(profile, matrix)) && Stands(s, 0, SpsItems(Small(profile, matrix)), end)
    ensures H264Sps.ParseSps(s, r).parsed.rec.log2MaxFrameNum == SmallRecorded(profile)
    ensures H264Sps.ParseSps(s, r).parsed.rec != Recorded(Small(profile, matrix), r)
  {
    var v := Small(profile, matrix);
    RecordedFrameNum(v, r);
    if HasHighElements(profile) && profile < 100 {
      HighMissed(s, v, r, end);
    } else if matrix {
      NoneSentOk(0, 8);
      MatrixMisread(s, v, r, end);
    } else {
      HighImagined(s, v, r, end);
    }
  }

  lemma {:induction false} NoneSentOk(i: nat, n: nat)
    requires i <= n
    ensures ListsOk(NoneSent(n - i), i, n) && !SomeSent(NoneSent(n - i))
    decreases n - i
  {
    if i < n {
      NoneSentOk(i + 1, n);
    }
  }

  lemma {:induction false} NoneSentFits(n: nat, xs: Items)
    requires AllFit(xs)
    ensures AllFit(ListItems(NoneSent(n), xs))
  {
    if n > 0 {
      NoneSentFits(n - 1, xs);
    }
  }

  lemma SmallFits(profile: nat, matrix: bool)
    requires profile < 0x100
    ensures InRange(Small(profile, matrix)) && AllFit(SpsItems(Small(profile, matrix)))
  {
    NoneSentOk(0, 8);
    SmallTailFits(profile, matrix);
    HeaderFits(profile, RestItems(Small(profile, matrix)));
  }

  lemma HeaderFits(profile: nat, xs: Items)
    requires profile < 0x100 && AllFit(xs)
    ensures AllFit(Then(U(8, profile), Then(U(8, 0), Then(U(8, 30), Then(Ue(0), xs)))))
  {
    Pow2Values();
    assert Prefix(1) == 0;
    assert AllFit(Then(U(8, 30), Then(Ue(0), xs)));
  }

  lemma SmallTailFits(profile: nat, matrix: bool)
    requires SpsOk(Small(profile, matrix))
    ensures AllFit(RestItems(Small(profile, matrix)))
  {
    var v := Small(profile, matrix);
    assert Prefix(2) == Prefix(3) == 1 && Prefix(1) == 0 && Prefix(5) == Prefix(6) == 2;
    assert Pow2(1) == 2;
    var x3 := OptVuiItems(v.vui, End);
    assert AllFit(x3);
    assert AllFit(SizeItems(v, x3));
    var xs := Then(Ue(v.log2FrameNum), PocItems(v.poc, SizeItems(v, x3)));
    assert AllFit(xs);
    NoneSentFits(8, xs);
  }

  /** The parser reads v right from s, if v stands there. */
  ghost predicate ReadRight(s: Stream, v: SpsSyntax, r: Record, end: nat) {
    InRange(v) && Stands(s, 0, SpsItems(v), end) ==>
      H264Sps.ParseSps(s, r) == H264Sps.Outcome(true, H264Sps.Parsed(Recorded(v, r), end))
  }

  /** All parameter sets in range of a profile, and with a scaling matrix or without. */
  ghost predicate AllRight(profile: nat, matrix: bool) {
    forall s: Stream, v: SpsSyntax, r: Record, end: nat :: v.profile == profile && HasMatrix(v) == matrix ==> ReadRight(s, v, r, end)
  }

  /** They are read right wherever they stand if and only if the profile is told right and they have no matrix. */
  lemma ProfileServed(profile: nat, matrix: bool, wide: (nat, nat) -> int32, r0: Record)
    requires profile < 0x100 && (matrix ==> HasHighElements(profile))
    ensures AllRight(profile, matrix) <==> Told(profile) && !matrix
  {
    if Told(profile) && !matrix {
      forall s: Stream, v: SpsSyntax, r: Record, end: nat | v.profile == profile && HasMatrix(v) == matrix
        ensures ReadRight(s, v, r, end)
      {
        if InRange(v) && Stands(s, 0, SpsItems(v), end) {
          SpsRoundTrip(s, v, r, end);
        }
      }
    } else {
      SmallFits(profile, matrix);
      var s, end := SomewhereStands(SpsItems(Small(profile, matrix)), wide);
      SmallMisread(s, profile, matrix, r0, end);
      assert !ReadRight(s, Small(profile, matrix), r0, end);
    }
  }
}
