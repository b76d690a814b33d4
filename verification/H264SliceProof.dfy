/** The slice parser of H264Slice, behind the parameter set parser of H264Sps, against the syntax of H264Syntax. */
module H264SliceProof {
  import opened Powers
  import opened BitOps
  import opened BitCursor
  import opened ExpGolomb
  import opened Options
  import opened H264Syntax
  import H264Sps
  import H264SpsProof
  import H264Profiles
  import H264Slice

  type Stream = BitCursor.Stream
  type Record = H264Sps.Record

  /** The fields the slice parser goes by hold what the parameter set says. */
  ghost predicate Tells(sps: Record, v: SpsSyntax) {
    && sps.log2MaxFrameNum == v.log2FrameNum
    && (sps.frameMbsOnly == 0 <==> v.fieldsAff.Some?)
    && match v.poc
       case Lsb(n) => sps.pocType == 0 && sps.log2MaxPocLsb == n
       case Cycle(z, _, _, _) => sps.pocType == 1 && sps.deltaPicOrderAlwaysZero == z
       case Output => sps.pocType == 2
  }

  lemma RecordedTells(v: SpsSyntax, r: Record)
    ensures Tells(H264SpsProof.Recorded(v, r), v)
  {
  }

  lemma StartBack(s: Stream, xs: Items, end: nat) returns (rest: Items)
    requires Stands(s, 0, xs, end) && xs.Then? && xs.item.Ue?
    requires xs.rest.Then? && xs.rest.item.Ue? && xs.rest.rest.Then? && xs.rest.rest.item.Ue?
    ensures rest == xs.rest.rest.rest && Stands(s, H264Slice.AtFrameNum(s, 0), rest, end)
    ensures Exact(xs.rest.item.num) ==> s.Ue(s.PastUe(0)) == xs.rest.item.num
  {
    var j, ys := NextUe(s, 0, xs, end);
    j, ys := NextUe(s, j, ys, end);
    j, rest := NextUe(s, j, ys, end);
  }

  lemma FieldBack(s: Stream, i: nat, sps: Record, v: SpsSyntax, field: Option<nat>, rest: Items, end: nat)
    requires Tells(sps, v) && Stands(s, i, FieldItems(v, field, rest), end)
    ensures Stands(s, H264Slice.PastField(s, i, sps), rest, end)
  {
    if v.fieldsAff.Some? {
      var j, xs := NextU(s, i, FieldItems(v, field, rest), end);
      if field.Some? {
        j, xs := NextU(s, j, xs, end);
      }
    }
  }

  lemma IdrBack(s: Stream, i: nat, nalType: int, idrPicId: nat, rest: Items, end: nat)
    requires Stands(s, i, IdrItems(nalType == 5, idrPicId, rest), end)
    ensures Stands(s, H264Slice.PastIdr(s, i, nalType), rest, end)
  {
    if nalType == 5 {
      var j, xs := NextUe(s, i, IdrItems(nalType == 5, idrPicId, rest), end);
    }
  }

  lemma PocValueBack(s: Stream, i: nat, sps: Record, v: SpsSyntax, h: SliceHeader, rest: Items, end: nat)
    requires Tells(sps, v) && Stands(s, i, PocValueItems(v.poc, h, rest), end)
    ensures s.Value(i, H264Slice.PocBits(sps)) == if v.poc.Lsb? then h.lsb else 0
    ensures Stands(s, H264Slice.PastPoc(s, i, sps), rest, end)
  {
    if v.poc.Lsb? {
      var j, xs := NextU(s, i, PocValueItems(v.poc, h, rest), end);
    } else if v.poc.Cycle? && v.poc.alwaysZero == 0 {
      var j, xs := NextSe(s, i, PocValueItems(v.poc, h, rest), end);
    }
  }

  /** From frame_num on. */
  lemma FrameNumBack(s: Stream, sps: Record, v: SpsSyntax, h: SliceHeader, nalType: int, rest: Items, end: nat)
    requires Tells(sps, v) && Stands(s, H264Slice.AtFrameNum(s, 0), FrameNumItems(v, h, nalType == 5, rest), end)
    ensures s.Value(H264Slice.AtFrameNum(s, 0), H264Slice.FrameBits(sps)) == h.frameNum
    ensures Stands(s, H264Slice.AtPoc(s, 0, nalType, sps), PocValueItems(v.poc, h, rest), end)
  {
    var x2 := PocValueItems(v.poc, h, rest);
    var x1 := IdrItems(nalType == 5, h.idrPicId, x2);
    var j, xs := NextU(s, H264Slice.AtFrameNum(s, 0), FrameNumItems(v, h, nalType == 5, rest), end);
    FieldBack(s, j, sps, v, h.field, x1, end);
    IdrBack(s, H264Slice.PastField(s, j, sps), nalType, h.idrPicId, x2, end);
  }

  /** The slice header behind its parameter set: type, frame_num and pic_order_cnt_lsb come back, on the IDR branch
      and the field branches, with 4 to 16 bits for the two numbers, and the cursor is at the next element. */
  lemma SliceAfterSps(s: Stream, s': Stream, v: SpsSyntax, r: Record, end: nat, h: SliceHeader, nalType: int, rest: Items, end': nat)
    requires H264SpsProof.Supported(v) && !SeparatePlanes(v)
    requires Stands(s, 0, SpsItems(v), end) && Stands(s', 0, SliceItems(v, h, nalType == 5, rest), end')
    ensures var sps := H264Sps.ParseSps(s, r).parsed.rec;
            var q := H264Slice.ParseSlice(s', nalType, sps);
            && 4 <= H264Slice.FrameBits(sps) <= 16 && (sps.pocType == 0 ==> 4 <= H264Slice.PocBits(sps) <= 16)
            && (Exact(h.sliceType) ==> q.sliceType == h.sliceType) && q.frameNum == h.frameNum
            && q.picOrderCntLsb == (if v.poc.Lsb? then h.lsb else 0) && Stands(s', q.at, rest, end')
  {
    H264SpsProof.SpsRoundTrip(s, v, r, end);
    var sps := H264SpsProof.Recorded(v, r);
    RecordedTells(v, r);
    var xs := StartBack(s', SliceItems(v, h, nalType == 5, rest), end');
    FrameNumBack(s', sps, v, h, nalType, rest, end');
    PocValueBack(s', H264Slice.AtPoc(s', 0, nalType, sps), sps, v, h, rest, end');
  }

  /** colour_plane_id is not read: with separate colour planes frame_num begins with its two bits and loses its last two. */
  lemma {:induction false} PlaneMisread(s: Stream, sps: Record, v: SpsSyntax, h: SliceHeader, nalType: int, rest: Items, end: nat)
    requires Tells(sps, v) && SeparatePlanes(v) && Stands(s, 0, SliceItems(v, h, nalType == 5, rest), end)
    ensures H264Slice.ParseSlice(s, nalType, sps).frameNum == Shl(h.plane, v.log2FrameNum + 2) + Shr(h.frameNum, 2)
  {
    var n := v.log2FrameNum + 2;
    var xs := StartBack(s, SliceItems(v, h, nalType == 5, rest), end);
    var i := H264Slice.AtFrameNum(s, 0);
    var j, ys := NextU(s, i, xs, end);
    StandsFirst(s, j, ys.item, ys.rest, end);
    TwoBitsEarly(s, i, n, h.frameNum);
  }

  /** A number of n + 2 bits that follows two other bits, read from those. */
  lemma TwoBitsEarly(s: Stream, i: nat, n: nat, x: nat)
    requires Here(s, i + 2, U(n + 2, x))
    ensures s.Value(i, n + 2) == Shl(s.Value(i, 2), n) + Shr(x, 2)
  {
    SpelledValue(s, i + 2, n + 2, x, n);
    ValueSplit(s, i, 2, n);
    ShrBelow(x, 2, n);
    LowSmall(Shr(x, 2), n);
  }

  lemma {:induction false} Pow2NotThirds(n: nat)
    ensures Pow2(n) % 3 != 0
  {
    if n > 0 {
      Pow2NotThirds(n - 1);
    }
  }

  /** The plane's two bits before a number, and the number without its last two, make the number again only for one
      number: a third of the way through the range, or two thirds. */
  lemma ThirdOnly(plane: nat, n: nat, x: nat)
    requires plane <= 2
    ensures Shl(plane, n) + Shr(x, 2) == x <==> x == plane * Pow2(n + 2) / 3
  {
    ShlIsTimes(plane, n);
    LowIsMod(x, 2);
    assert Pow2(2) == 4;
    Pow2NotThirds(n);
    assert Pow2(n + 2) == 4 * Pow2(n);
    ThirdOf(Pow2(n), x);
  }

  lemma ThirdOf(m: nat, x: nat)
    requires m % 3 != 0
    ensures x / 4 == x <==> x == 0
    ensures m + x / 4 == x <==> x == 4 * m / 3
    ensures 2 * m + x / 4 == x <==> x == 2 * (4 * m) / 3
  {
  }

  /** frame_num comes back if and only if there are no separate colour planes, or it is that number. */
  lemma FrameNumRight(s: Stream, s': Stream, v: SpsSyntax, r: Record, end: nat, h: SliceHeader, nalType: int, rest: Items, end': nat)
    requires H264SpsProof.Supported(v) && h.plane <= 2
    requires Stands(s, 0, SpsItems(v), end) && Stands(s', 0, SliceItems(v, h, nalType == 5, rest), end')
    ensures H264Slice.ParseSlice(s', nalType, H264Sps.ParseSps(s, r).parsed.rec).frameNum == h.frameNum <==>
            !SeparatePlanes(v) || h.frameNum == h.plane * Pow2(v.log2FrameNum + 4) / 3
  {
    if SeparatePlanes(v) {
      H264SpsProof.SpsRoundTrip(s, v, r, end);
      RecordedTells(v, r);
      PlaneMisread(s', H264SpsProof.Recorded(v, r), v, h, nalType, rest, end');
      ThirdOnly(h.plane, v.log2FrameNum + 2, h.frameNum);
    } else {
      SliceAfterSps(s, s', v, r, end, h, nalType, rest, end');
    }
  }

  /** The last two bits of a number of n + 2 bits. */
  lemma {:induction false} LastTwo(s: Stream, i: nat, n: nat, x: nat)
    requires Here(s, i, U(n + 2, x))
    ensures s.Value(i + n, 2) == x % 4
  {
    ReadsU(s, i, n + 2, x);
    ValueSplit(s, i, n, 2);
    ValueSmall(s, i + n, 2);
    FourTimes(s.Value(i, n), s.Value(i + n, 2));
  }

  lemma FourTimes(a: nat, b: nat)
    requires b < Pow2(2)
    ensures (Shl(a, 2) + b) % 4 == b
  {
    assert Shl(a, 2) == 2 * Shl(a, 1) && Shl(a, 1) == 2 * a;
  }

  /** The same two bits shift pic_order_cnt_lsb, where it follows frame_num: it begins with the last two bits of frame_num
      and loses its own. */
  lemma {:induction false} PlaneLsb(s: Stream, sps: Record, v: SpsSyntax, h: SliceHeader, nalType: int, rest: Items, end: nat)
    requires Tells(sps, v) && SeparatePlanes(v) && v.fieldsAff.None? && nalType != 5 && v.poc.Lsb?
    requires Stands(s, 0, SliceItems(v, h, nalType == 5, rest), end)
    ensures H264Slice.ParseSlice(s, nalType, sps).picOrderCntLsb == Shl(h.frameNum % 4, v.poc.log2 + 2) + Shr(h.lsb, 2)
  {
    var n, m := v.log2FrameNum + 2, v.poc.log2 + 2;
    var xs := StartBack(s, SliceItems(v, h, nalType == 5, rest), end);
    var i := H264Slice.AtFrameNum(s, 0);
    ThreeHere(s, i, h.plane, n + 2, h.frameNum, m + 2, h.lsb, rest, end);
    TwoNumbersEarly(s, i, n, h.frameNum, m, h.lsb);
    assert H264Slice.AtPoc(s, 0, nalType, sps) == s.Past(i, n + 2);
  }

  lemma {:induction false} ThreeHere(s: Stream, i: nat, plane: nat, n: nat, x: nat, m: nat, y: nat, rest: Items, end: nat)
    requires Stands(s, i, Then(U(2, plane), Then(U(n, x), Then(U(m, y), rest))), end)
    ensures Here(s, i + 2, U(n, x)) && Here(s, i + 2 + n, U(m, y))
  {
    StandsFirst(s, i, U(2, plane), Then(U(n, x), Then(U(m, y), rest)), end);
    StandsFirst(s, i + 2, U(n, x), Then(U(m, y), rest), end);
    StandsFirst(s, i + 2 + n, U(m, y), rest, end);
  }

  /** Two numbers that follow two other bits: where the second is read two bits early. */
  lemma {:induction false} TwoNumbersEarly(s: Stream, i: nat, n: nat, x: nat, m: nat, y: nat)
    requires Here(s, i + 2, U(n + 2, x)) && Here(s, i + n + 4, U(m + 2, y))
    ensures s.Past(i, n + 2) == i + n + 2 && s.Value(i + n + 2, m + 2) == Shl(x % 4, m) + Shr(y, 2)
  {
    LastTwo(s, i + 2, n, x);
    TwoBitsEarly(s, i + n + 2, m, y);
  }

  lemma {:induction false} ThirdRest(plane: nat, n: nat, x: nat)
    requires plane <= 2 && x == plane * Pow2(n + 2) / 3
    ensures x % 4 <= 2
  {
    Pow2NotThirds(n);
    assert Pow2(n + 2) == 4 * Pow2(n);
    ThirdRemainders(Pow2(n));
    if plane == 1 {
      assert x == 4 * Pow2(n) / 3;
    } else if plane == 2 {
      assert x == 2 * (4 * Pow2(n)) / 3;
    }
  }

  lemma ThirdRemainders(m: nat)
    requires m % 3 != 0
    ensures 4 * m / 3 % 4 <= 2 && 2 * (4 * m) / 3 % 4 <= 2
  {
    var q, r := m / 3, m % 3;
    assert 4 * m / 3 == 4 * q + r;
    assert 2 * (4 * m) / 3 == 4 * (2 * q) + (if r == 1 then 2 else 5);
  }

  /** With separate planes, in frames, and not in IDR slices: both numbers come back if and only if frame_num is the one
      FrameNumRight tells and pic_order_cnt_lsb is the like for the last two bits of frame_num. */
  lemma {:induction false} HeaderRight(s: Stream, s': Stream, v: SpsSyntax, r: Record, end: nat, h: SliceHeader, nalType: int, rest: Items, end': nat)
    requires H264SpsProof.Supported(v) && h.plane <= 2 && SeparatePlanes(v) && v.fieldsAff.None? && nalType != 5
    requires Stands(s, 0, SpsItems(v), end) && Stands(s', 0, SliceItems(v, h, nalType == 5, rest), end')
    ensures var q := H264Slice.ParseSlice(s', nalType, H264Sps.ParseSps(s, r).parsed.rec);
            q.frameNum == h.frameNum && q.picOrderCntLsb == (if v.poc.Lsb? then h.lsb else 0) <==>
            h.frameNum == h.plane * Pow2(v.log2FrameNum + 4) / 3
            && (v.poc.Lsb? ==> h.lsb == h.frameNum % 4 * Pow2(v.poc.log2 + 4) / 3)
  {
    FrameNumRight(s, s', v, r, end, h, nalType, rest, end');
    H264SpsProof.SpsRoundTrip(s, v, r, end);
    RecordedTells(v, r);
    if v.poc.Lsb? && h.frameNum == h.plane * Pow2(v.log2FrameNum + 4) / 3 {
      PlaneLsb(s', H264SpsProof.Recorded(v, r), v, h, nalType, rest, end');
      ThirdRest(h.plane, v.log2FrameNum + 2, h.frameNum);
      ThirdOnly(h.frameNum % 4, v.poc.log2 + 2, h.lsb);
    }
  }

  /** 4:4:4 video of 16 by 96 samples with separate colour planes, and a slice of its second plane in the first frame. */
  function ThreePlanes(): SpsSyntax {
    H264Profiles.Small(244, false).(high := Some(High(3, 1, 0, 0, 0, None)))
  }

  function SecondPlane(): SliceHeader {
    SliceHeader(0, 0, 0, 1, 0, None, 0, 0, 0)
  }

  lemma ThreePlanesFit()
    ensures H264SpsProof.Supported(ThreePlanes()) && SeparatePlanes(ThreePlanes()) && AllFit(SpsItems(ThreePlanes()))
    ensures AllFit(SliceItems(ThreePlanes(), SecondPlane(), false, End))
  {
    H264Profiles.SmallFits(244, false);
    assert Prefix(1) == 0 && Prefix(4) == 2 && Pow2(1) == 2 && Pow2(2) == 4;
    Pow2Monotone(0, 8);
    var xs := RestItems(H264Profiles.Small(244, false)).rest.rest.rest.rest.rest;
    assert AllFit(xs);
    assert RestItems(ThreePlanes()) == HighItems(ThreePlanes().high, xs);
  }

  lemma StartOnward(s: Stream, i: nat, sps: Record)
    ensures Onward(s, i, s.Past(H264Slice.AtFrameNum(s, i), H264Slice.FrameBits(sps)), 0)
  {
    UeOnward(s, i);
    UeOnward(s, s.PastUe(i));
    UeOnward(s, s.PastUe(s.PastUe(i)));
  }

  lemma EndOnward(s: Stream, i: nat, nalType: int, sps: Record)
    ensures Onward(s, i, H264Slice.PastPoc(s, H264Slice.PastIdr(s, H264Slice.PastField(s, i, sps), nalType), sps), 0)
  {
    var j := H264Slice.PastField(s, i, sps);
    UeOnward(s, j);
    UeOnward(s, H264Slice.PastIdr(s, j, nalType));
  }

  /** On any buffer and from anywhere in it the slice parser does not move the cursor back, nor past the end. */
  lemma SliceOnward(s: Stream, i: nat, nalType: int, sps: Record)
    ensures Onward(s, i, H264Slice.ParseFrom(s, i, nalType, sps).at, 0)
  {
    StartOnward(s, i, sps);
    EndOnward(s, s.Past(H264Slice.AtFrameNum(s, i), H264Slice.FrameBits(sps)), nalType, sps);
  }

  /** After a successful parse of any parameter set the slice parser takes at most 16 bits for either number. */
  lemma SliceWidths(s: Stream, r: Record)
    ensures var q := H264Sps.ParseSps(s, r);
            q.ok ==> H264Slice.FrameBits(q.parsed.rec) <= 16 && H264Slice.PocBits(q.parsed.rec) <= 16
  {
    H264SpsProof.WidthsBounded(s, r);
  }
}
