/** The parser of H264Sps against the syntax of H264Syntax. */
module H264SpsProof {
  import opened Powers
  import opened BitOps
  import opened BitCursor
  import opened ExpGolomb
  import opened Options
  import opened H264Syntax
  import H264Sps

  type Stream = BitCursor.Stream
  type Parsed = H264Sps.Parsed
  type Record = H264Sps.Record

  // ---------- HRD ----------

  lemma {:induction false} CpbsBack(s: Stream, i: nat, c: Cpbs, rest: Items, end: nat)
    requires Stands(s, i, CpbItems(c, rest), end)
    ensures Stands(s, H264Sps.PastCpbs(s, i, CpbCount(c)), rest, end)
    decreases c
  {
    if c.Cpb? {
      CpbBack(s, i, c.bitRate, c.size, c.cbr, CpbItems(c.more, rest), end);
      CpbsBack(s, s.Past(s.PastUe(s.PastUe(i)), 1), c.more, rest, end);
    }
  }

  lemma CpbBack(s: Stream, i: nat, bitRate: nat, size: nat, cbr: nat, rest: Items, end: nat)
    requires Stands(s, i, Then(Ue(bitRate), Then(Ue(size), Then(U(1, cbr), rest))), end)
    ensures Stands(s, s.Past(s.PastUe(s.PastUe(i)), 1), rest, end)
  {
    var j, xs := NextUe(s, i, Then(Ue(bitRate), Then(Ue(size), Then(U(1, cbr), rest))), end);
    j, xs := NextUe(s, j, xs, end);
    j, xs := NextU(s, j, xs, end);
  }

  lemma HrdTailBack(s: Stream, i: nat, h: Hrd, rest: Items, end: nat)
    requires Stands(s, i, HrdTail(h, rest), end)
    ensures Stands(s, H264Sps.PastHrdTail(s, i), rest, end)
  {
    var j, xs := NextU(s, i, HrdTail(h, rest), end);
    j, xs := NextU(s, j, xs, end);
    j, xs := NextU(s, j, xs, end);
    j, xs := NextU(s, j, xs, end);
  }

  lemma HrdBack(s: Stream, i: nat, h: Hrd, rest: Items, end: nat)
    requires h.cpbs.Cpb? && CpbCount(h.cpbs) < 0x8000_0000 && Stands(s, i, HrdItems(h, rest), end)
    ensures Stands(s, H264Sps.PastHrd(s, i), rest, end)
  {
    var j, xs := NextUe(s, i, HrdItems(h, rest), end);
    j, xs := NextU(s, j, xs, end);
    j, xs := NextU(s, j, xs, end);
    CpbsBack(s, j, h.cpbs, HrdTail(h, rest), end);
    HrdTailBack(s, H264Sps.PastCpbs(s, j, CpbCount(h.cpbs)), h, rest, end);
  }

  lemma OptHrdBack(s: Stream, i: nat, h: Option<Hrd>, rest: Items, end: nat)
    requires HrdOk(h) && Stands(s, i, OptHrdItems(h, rest), end)
    ensures Stands(s, H264Sps.PastOptHrd(s, i), rest, end) && (s.Value(i, 1) != 0 <==> h.Some?)
  {
    var j, xs := NextU(s, i, OptHrdItems(h, rest), end);
    if h.Some? {
      HrdBack(s, j, h.value, rest, end);
    }
  }

  lemma HrdsBack(s: Stream, i: nat, v: Vui, rest: Items, end: nat)
    requires VuiOk(v)
    requires Stands(s, i, OptHrdItems(v.nal, OptHrdItems(v.vcl, DelayItems(v, Then(U(1, v.picStruct), rest)))), end)
    ensures Stands(s, H264Sps.PastHrds(s, i), rest, end)
  {
    var xs := DelayItems(v, Then(U(1, v.picStruct), rest));
    OptHrdBack(s, i, v.nal, OptHrdItems(v.vcl, xs), end);
    var j := H264Sps.PastOptHrd(s, i);
    OptHrdBack(s, j, v.vcl, xs, end);
    j := H264Sps.PastOptHrd(s, j);
    if v.nal.Some? || v.vcl.Some? {
      j, xs := NextU(s, j, xs, end);
    }
    j, xs := NextU(s, j, xs, end);
  }

  // ---------- VUI ----------

  lemma IdcBack(idc: nat)
    requires idc < 17
    ensures H264Sps.SAR_NUM[idc] == IdcWidth(idc) && H264Sps.SAR_DEN[idc] == IdcHeight(idc)
  {
  }

  lemma AspectBack(s: Stream, p: Parsed, a: Option<Aspect>, rest: Items, end: nat)
    requires (a.Some? && a.value.Idc? ==> a.value.idc < 255) && Stands(s, p.at, AspectItems(a, rest), end)
    ensures var q := H264Sps.ParseAspect(s, p);
            q.rec == p.rec.(sarNum := SarWidth(a), sarDen := SarHeight(a)) && Stands(s, q.at, rest, end)
  {
    var j, xs := NextU(s, p.at, AspectItems(a, rest), end);
    if a.Some? {
      j, xs := NextU(s, j, xs, end);
      if a.value.ExtendedSar? {
        j, xs := NextU(s, j, xs, end);
        j, xs := NextU(s, j, xs, end);
      } else if a.value.idc < 17 {
        IdcBack(a.value.idc);
      }
    }
  }

  lemma OverscanBack(s: Stream, i: nat, o: Option<nat>, rest: Items, end: nat)
    requires Stands(s, i, OverscanItems(o, rest), end)
    ensures Stands(s, H264Sps.PastOverscan(s, i), rest, end)
  {
    var j, xs := NextU(s, i, OverscanItems(o, rest), end);
    if o.Some? {
      j, xs := NextU(s, j, xs, end);
    }
  }

  lemma ColourBack(s: Stream, i: nat, c: Option<Colour>, rest: Items, end: nat)
    requires Stands(s, i, ColourItems(c, rest), end)
    ensures Stands(s, H264Sps.PastColour(s, i), rest, end)
  {
    var j, xs := NextU(s, i, ColourItems(c, rest), end);
    if c.Some? {
      j, xs := NextU(s, j, xs, end);
      j, xs := NextU(s, j, xs, end);
      j, xs := NextU(s, j, xs, end);
    }
  }

  lemma SignalBack(s: Stream, i: nat, v: Option<VideoSignal>, rest: Items, end: nat)
    requires Stands(s, i, SignalItems(v, rest), end)
    ensures Stands(s, H264Sps.PastSignal(s, i), rest, end)
  {
    var j, xs := NextU(s, i, SignalItems(v, rest), end);
    if v.Some? {
      j, xs := NextU(s, j, xs, end);
      j, xs := NextU(s, j, xs, end);
      ColourBack(s, j, v.value.colour, rest, end);
    }
  }

  lemma ChromaBack(s: Stream, i: nat, c: Option<ChromaLoc>, rest: Items, end: nat)
    requires Stands(s, i, ChromaItems(c, rest), end)
    ensures Stands(s, H264Sps.PastChroma(s, i), rest, end)
  {
    var j, xs := NextU(s, i, ChromaItems(c, rest), end);
    if c.Some? {
      j, xs := NextUe(s, j, xs, end);
      j, xs := NextUe(s, j, xs, end);
    }
  }

  ghost function RecordedTiming(t: Option<Timing>, r: Record): Record {
    match t
    case None => r.(timingInfoPresent := 0)
    case Some(Timing(u, s, f)) => r.(timingInfoPresent := 1, numUnitsInTick := u, timeScale := s, fixedFrameRate := f)
  }

  lemma TimingBack(s: Stream, p: Parsed, t: Option<Timing>, rest: Items, end: nat)
    requires Stands(s, p.at, TimingItems(t, rest), end)
    ensures var q := H264Sps.ParseTiming(s, p); q.rec == RecordedTiming(t, p.rec) && Stands(s, q.at, rest, end)
  {
    var j, xs := NextU(s, p.at, TimingItems(t, rest), end);
    if t.Some? {
      j, xs := NextU(s, j, xs, end);
      j, xs := NextU(s, j, xs, end);
      j, xs := NextU(s, j, xs, end);
    }
  }

  /** More than 16 reorder frames are illegal, and the field keeps what it had. */
  ghost function RecordedRestriction(b: Option<Restriction>, r: Record): Record {
    match b
    case None => r.(bitstreamRestriction := 0)
    case Some(b) => r.(bitstreamRestriction := 1, numReorderFrames := if b.reorder > 16 then r.numReorderFrames else b.reorder)
  }

  lemma RestrictionBack(s: Stream, p: Parsed, b: Option<Restriction>, rest: Items, end: nat)
    requires (b.Some? ==> Exact(b.value.reorder)) && Stands(s, p.at, RestrictionItems(b, rest), end)
    ensures var q := H264Sps.ParseRestriction(s, p); q.rec == RecordedRestriction(b, p.rec) && Stands(s, q.at, rest, end)
  {
    var j, xs := NextU(s, p.at, RestrictionItems(b, rest), end);
    if b.Some? {
      j, xs := NextU(s, j, xs, end);
      var r := b.value;
      var ys := Then(Ue(r.reorder), Then(Ue(r.buffering), rest));
      FourBack(s, j, r.bytesDenom, r.bitsDenom, r.horizontal, r.vertical, ys, end);
      var p1 := H264Sps.Parsed(p.rec.(bitstreamRestriction := 1), H264Sps.PastFour(s, j));
      ReorderBack(s, p1, r.reorder, r.buffering, rest, end);
    }
  }

  lemma FourBack(s: Stream, i: nat, a: nat, b: nat, c: nat, d: nat, rest: Items, end: nat)
    requires Stands(s, i, Then(Ue(a), Then(Ue(b), Then(Ue(c), Then(Ue(d), rest)))), end)
    ensures Stands(s, H264Sps.PastFour(s, i), rest, end)
  {
    var j, xs := NextUe(s, i, Then(Ue(a), Then(Ue(b), Then(Ue(c), Then(Ue(d), rest)))), end);
    j, xs := NextUe(s, j, xs, end);
    j, xs := NextUe(s, j, xs, end);
    j, xs := NextUe(s, j, xs, end);
  }

  lemma ReorderBack(s: Stream, p: Parsed, reorder: nat, buffering: nat, rest: Items, end: nat)
    requires Exact(reorder) && Stands(s, p.at, Then(Ue(reorder), Then(Ue(buffering), rest)), end)
    ensures var q := H264Sps.ParseReorder(s, p);
            q.rec == p.rec.(numReorderFrames := if reorder > 16 then p.rec.numReorderFrames else reorder) && Stands(s, q.at, rest, end)
  {
    var j, xs := NextUe(s, p.at, Then(Ue(reorder), Then(Ue(buffering), rest)), end);
    j, xs := NextUe(s, j, xs, end);
  }

  ghost function RecordedVui(v: Vui, r: Record): Record {
    RecordedRestriction(v.restriction,
      RecordedTiming(v.timing, r.(sarNum := SarWidth(v.aspect), sarDen := SarHeight(v.aspect))))
  }

  lemma VuiBack(s: Stream, p: Parsed, v: Vui, rest: Items, end: nat)
    requires VuiOk(v) && Stands(s, p.at, VuiItems(v, rest), end)
    ensures var q := H264Sps.ParseVui(s, p); q.rec == RecordedVui(v, p.rec) && Stands(s, q.at, rest, end)
  {
    var x5 := VuiTail(v, rest);
    var x4 := TimingItems(v.timing, x5);
    var x3 := ChromaItems(v.chroma, x4);
    var x2 := SignalItems(v.signal, x3);
    var p1 := H264Sps.ParseAspect(s, p);
    AspectBack(s, p, v.aspect, OverscanItems(v.overscan, x2), end);
    var i := H264Sps.PastOverscan(s, p1.at);
    OverscanBack(s, p1.at, v.overscan, x2, end);
    SignalBack(s, i, v.signal, x3, end);
    i := H264Sps.PastSignal(s, i);
    ChromaBack(s, i, v.chroma, x4, end);
    var p2 := H264Sps.Parsed(p1.rec, H264Sps.PastChroma(s, i));
    TimingBack(s, p2, v.timing, x5, end);
    var p3 := H264Sps.ParseTiming(s, p2);
    HrdsBack(s, p3.at, v, RestrictionItems(v.restriction, rest), end);
    RestrictionBack(s, H264Sps.Parsed(p3.rec, H264Sps.PastHrds(s, p3.at)), v.restriction, rest, end);
  }

  ghost function RecordedOptVui(v: Option<Vui>, r: Record): Record {
    match v
    case None => r.(vuiPresent := 0)
    case Some(u) => RecordedVui(u, r.(vuiPresent := 1))
  }

  lemma OptVuiBack(s: Stream, p: Parsed, v: Option<Vui>, end: nat)
    requires (v.Some? ==> VuiOk(v.value)) && Stands(s, p.at, OptVuiItems(v, End), end)
    ensures H264Sps.ParseOptVui(s, p) == H264Sps.Parsed(RecordedOptVui(v, p.rec), end)
  {
    var j, xs := NextU(s, p.at, OptVuiItems(v, End), end);
    var q := H264Sps.Parsed(p.rec.(vuiPresent := if v.Some? then 1 else 0), j);
    if v.Some? {
      VuiBack(s, q, v.value, End, end);
      AtEnd(s, H264Sps.ParseVui(s, q).at, end);
    } else {
      AtEnd(s, j, end);
    }
  }

  lemma AtEnd(s: Stream, i: nat, end: nat)
    requires Stands(s, i, End, end)
    ensures i == end
  {
    assert StandsAt(s, i, End, end, 0);
  }

  // ---------- the rest ----------

  ghost function RecordedHigh(h: Option<High>, r: Record): Record {
    if h.None? then r else r.(transformBypass := h.value.bypass)
  }

  /** What follows seq_scaling_matrix_present_flag, where the parser goes on. */
  ghost function AfterFlag(h: Option<High>, rest: Items): Items {
    if h.Some? && h.value.matrix.Some? then ListItems(h.value.matrix.value, rest) else rest
  }

  lemma HighBack(s: Stream, p: Parsed, h: Option<High>, rest: Items, end: nat)
    requires (h.Some? <==> p.rec.profileIdc >= 100) && (h.Some? ==> HighOk(h.value))
    requires Stands(s, p.at, HighItems(h, rest), end)
    ensures var q := H264Sps.ParseHigh(s, p); q.rec == RecordedHigh(h, p.rec) && Stands(s, q.at, AfterFlag(h, rest), end)
  {
    if h.Some? {
      var v := h.value;
      ChromaFormatBack(s, p.at, v.chromaFormat, v.separatePlanes, BypassItems(v, rest), end);
      BypassBack(s, H264Sps.Parsed(p.rec, H264Sps.PastChromaFormat(s, p.at)), v, rest, end);
    }
  }

  lemma ChromaFormatBack(s: Stream, i: nat, chroma: nat, planes: nat, rest: Items, end: nat)
    requires chroma <= 3 && Stands(s, i, Then(Ue(chroma), PlaneItems(chroma, planes, rest)), end)
    ensures Stands(s, H264Sps.PastChromaFormat(s, i), rest, end)
  {
    var j, xs := NextUe(s, i, Then(Ue(chroma), PlaneItems(chroma, planes, rest)), end);
    if chroma == 3 {
      j, xs := NextU(s, j, xs, end);
    }
  }

  lemma BypassBack(s: Stream, p: Parsed, v: High, rest: Items, end: nat)
    requires Stands(s, p.at, BypassItems(v, rest), end)
    ensures var q := H264Sps.ParseBypass(s, p);
            q.rec == p.rec.(transformBypass := v.bypass) && Stands(s, q.at, AfterFlag(Some(v), rest), end)
  {
    var j, xs := NextUe(s, p.at, BypassItems(v, rest), end);
    j, xs := NextUe(s, j, xs, end);
    j, xs := NextU(s, j, xs, end);
    j, xs := NextU(s, j, xs, end);
  }

  lemma {:induction false} OffsetsBack(s: Stream, i: nat, o: Offsets, rest: Items, end: nat)
    requires Stands(s, i, OffsetItems(o, rest), end)
    ensures Stands(s, H264Sps.PastOffsets(s, i, OffsetCount(o)), rest, end)
    decreases o
  {
    if o.Offset? {
      var j, xs := NextSe(s, i, OffsetItems(o, rest), end);
      OffsetsBack(s, j, o.more, rest, end);
    }
  }

  ghost function RecordedPoc(c: Poc, r: Record): Record {
    match c
    case Lsb(n) => r.(pocType := 0, log2MaxPocLsb := n)
    case Cycle(z, _, _, _) => r.(pocType := 1, deltaPicOrderAlwaysZero := z)
    case Output => r.(pocType := 2)
  }

  /** log2_max_pic_order_cnt_lsb_minus4 and num_ref_frames_in_pic_order_cnt_cycle are in range, and one more. */
  ghost predicate PocOk(c: Poc) {
    match c
    case Lsb(n) => n <= 12
    case Cycle(_, _, _, o) => OffsetCount(o) <= 256
    case Output => true
  }

  lemma CycleBack(s: Stream, p: Parsed, c: Poc, rest: Items, end: nat)
    requires c.Cycle? && PocOk(c)
    requires Stands(s, p.at, PocItems(c, rest).rest, end)
    ensures var q := H264Sps.ParseCycle(s, p); q.rec == p.rec.(deltaPicOrderAlwaysZero := c.alwaysZero) && Stands(s, q.at, rest, end)
  {
    var j, xs := NextU(s, p.at, PocItems(c, rest).rest, end);
    j, xs := NextSe(s, j, xs, end);
    j, xs := NextSe(s, j, xs, end);
    j, xs := NextUe(s, j, xs, end);
    OffsetsBack(s, j, c.offsets, rest, end);
  }

  /** Of more than 256 offsets the parser passes over 256. */
  lemma CycleClamped(s: Stream, p: Parsed, z: nat, a: int, b: int, n: nat, o: Offsets, rest: Items, end: nat)
    requires 256 < n && Exact(n) && OffsetCount(o) == 256
    requires Stands(s, p.at, Then(U(1, z), Then(Se(a), Then(Se(b), Then(Ue(n), OffsetItems(o, rest))))), end)
    ensures Stands(s, H264Sps.ParseCycle(s, p).at, rest, end)
  {
    var j, xs := NextU(s, p.at, Then(U(1, z), Then(Se(a), Then(Se(b), Then(Ue(n), OffsetItems(o, rest))))), end);
    j, xs := NextSe(s, j, xs, end);
    j, xs := NextSe(s, j, xs, end);
    j, xs := NextUe(s, j, xs, end);
    OffsetsBack(s, j, o, rest, end);
  }

  lemma PocBack(s: Stream, p: Parsed, log2: nat, c: Poc, rest: Items, end: nat)
    requires log2 <= 12 && PocOk(c) && Stands(s, p.at, Then(Ue(log2), PocItems(c, rest)), end)
    ensures var q := H264Sps.ParsePoc(s, p);
            q.rec == RecordedPoc(c, p.rec.(log2MaxFrameNum := log2)) && Stands(s, q.at, rest, end)
  {
    var j, xs := NextUe(s, p.at, Then(Ue(log2), PocItems(c, rest)), end);
    j, xs := NextUe(s, j, xs, end);
    if c.Lsb? {
      j, xs := NextUe(s, j, xs, end);
    } else if c.Cycle? {
      CycleBack(s, H264Sps.ParseFrameNum(s, p), c, rest, end);
    }
  }

  /** The size in luma samples fits the field if and only if the number is less than 2^27 - 1. */
  lemma SizeFits(w: nat)
    requires w < 0x7FFF_FFFF
    ensures Wrap(16 * (w + 1)) == 16 * (w + 1) <==> w < 0x7FF_FFFF
  {
  }

  lemma SizeAtBack(s: Stream, i: nat, w: nat, rest: Items, end: nat)
    requires w < 0x7FF_FFFF && Stands(s, i, Then(Ue(w), rest), end)
    ensures H264Sps.SizeAt(s, i) == 16 * (w + 1) && Stands(s, s.PastUe(i), rest, end)
  {
    var j, xs := NextUe(s, i, Then(Ue(w), rest), end);
    SizeFits(w);
  }

  lemma WidthBack(s: Stream, p: Parsed, w: nat, rest: Items, end: nat)
    requires w < 0x7FF_FFFF && Stands(s, p.at, Then(Ue(w), rest), end)
    ensures var q := H264Sps.ParseWidth(s, p); q.rec == p.rec.(mbWidth := 16 * (w + 1)) && Stands(s, q.at, rest, end)
  {
    SizeAtBack(s, p.at, w, rest, end);
  }

  lemma HeightBack(s: Stream, p: Parsed, h: nat, rest: Items, end: nat)
    requires h < 0x7FF_FFFF && Stands(s, p.at, Then(Ue(h), rest), end)
    ensures var q := H264Sps.ParseHeight(s, p); q.rec == p.rec.(mbHeight := 16 * (h + 1)) && Stands(s, q.at, rest, end)
  {
    SizeAtBack(s, p.at, h, rest, end);
  }

  lemma RefsBack(s: Stream, i: nat, refFrames: nat, gaps: nat, rest: Items, end: nat)
    requires Stands(s, i, Then(Ue(refFrames), Then(U(1, gaps), rest)), end)
    ensures Stands(s, H264Sps.PastRefs(s, i), rest, end)
  {
    var j, xs := NextUe(s, i, Then(Ue(refFrames), Then(U(1, gaps), rest)), end);
    j, xs := NextU(s, j, xs, end);
  }

  lemma FrameBack(s: Stream, p: Parsed, f: Option<nat>, direct: nat, rest: Items, end: nat)
    requires Stands(s, p.at, FrameItems(f, Then(U(1, direct), rest)), end)
    ensures var q := H264Sps.ParseFrame(s, p);
            q.rec == p.rec.(frameMbsOnly := if f.None? then 1 else 0) && Stands(s, q.at, rest, end)
  {
    var j, xs := NextU(s, p.at, FrameItems(f, Then(U(1, direct), rest)), end);
    if f.Some? {
      j, xs := NextU(s, j, xs, end);
    }
    j, xs := NextU(s, j, xs, end);
  }

  lemma CropBack(s: Stream, p: Parsed, c: Option<Crop>, rest: Items, end: nat)
    requires Stands(s, p.at, CropItems(c, rest), end)
    ensures var q := H264Sps.ParseCrop(s, p);
            q.rec == p.rec.(crop := if c.None? then 0 else 1) && Stands(s, q.at, rest, end)
  {
    var j, xs := NextU(s, p.at, CropItems(c, rest), end);
    if c.Some? {
      FourBack(s, j, c.value.left, c.value.right, c.value.top, c.value.bottom, rest, end);
    }
  }

  ghost function RecordedSize(v: SpsSyntax, r: Record): Record {
    r.(mbWidth := 16 * (v.width + 1), mbHeight := 16 * (v.height + 1),
       frameMbsOnly := if v.fieldsAff.None? then 1 else 0, crop := if v.crop.None? then 0 else 1)
  }

  lemma SizeBack(s: Stream, p: Parsed, v: SpsSyntax, rest: Items, end: nat)
    requires v.width < 0x7FF_FFFF && v.height < 0x7FF_FFFF && Stands(s, p.at, SizeItems(v, rest), end)
    ensures var q := H264Sps.ParseSize(s, p); q.rec == RecordedSize(v, p.rec) && Stands(s, q.at, rest, end)
  {
    var x2 := CropItems(v.crop, rest);
    var x1 := FrameItems(v.fieldsAff, Then(U(1, v.direct), x2));
    RefsBack(s, p.at, v.refFrames, v.gaps, Then(Ue(v.width), Then(Ue(v.height), x1)), end);
    var p1 := H264Sps.Parsed(p.rec, H264Sps.PastRefs(s, p.at));
    WidthBack(s, p1, v.width, Then(Ue(v.height), x1), end);
    var p2 := H264Sps.ParseWidth(s, p1);
    HeightBack(s, p2, v.height, x1, end);
    var p3 := H264Sps.ParseHeight(s, p2);
    FrameBack(s, p3, v.fieldsAff, v.direct, x2, end);
    CropBack(s, H264Sps.ParseFrame(s, p3), v.crop, rest, end);
  }

  // ---------- the whole parameter set ----------

  /** The fields after h264_decode_seq_parameter_set, from the values in the syntax and the fields before. */
  ghost function Recorded(v: SpsSyntax, r: Record): Record {
    RecordedOptVui(v.vui, RecordedBase(v, r))
  }

  /** Without the VUI parameters. */
  ghost function RecordedBase(v: SpsSyntax, r: Record): Record {
    var r1 := RecordedHigh(v.high, r.(profileIdc := v.profile, scalingMatrixPresent := if HasMatrix(v) then 1 else 0));
    RecordedSize(v, RecordedPoc(v.poc, r1.(log2MaxFrameNum := v.log2FrameNum)))
  }

  /** All values are in the ranges of the standard. */
  ghost predicate InRange(v: SpsSyntax) {
    && SpsOk(v) && v.id < 32 && v.log2FrameNum <= 12 && PocOk(v.poc)
    && v.width < 0x7FF_FFFF && v.height < 0x7FF_FFFF
  }

  /** profile_idc is 100 or more just when it should be for the elements of the high profiles. */
  ghost predicate Told(profile: nat) {
    HasHighElements(profile) <==> profile >= 100
  }

  ghost predicate Supported(v: SpsSyntax) {
    InRange(v) && Told(v.profile) && !HasMatrix(v)
  }

  lemma RestBack(s: Stream, p: Parsed, v: SpsSyntax, end: nat)
    requires Supported(v) && p.rec.profileIdc == v.profile && Stands(s, p.at, RestItems(v), end)
    ensures var r1 := RecordedHigh(v.high, p.rec);
            H264Sps.ParseRest(s, p) == H264Sps.Parsed(
              RecordedOptVui(v.vui, RecordedSize(v, RecordedPoc(v.poc, r1.(log2MaxFrameNum := v.log2FrameNum)))), end)
  {
    var x3 := OptVuiItems(v.vui, End);
    var x2 := SizeItems(v, x3);
    HighBack(s, p, v.high, Then(Ue(v.log2FrameNum), PocItems(v.poc, x2)), end);
    var p1 := H264Sps.ParseHigh(s, p);
    PocBack(s, p1, v.log2FrameNum, v.poc, x2, end);
    var p2 := H264Sps.ParsePoc(s, p1);
    SizeBack(s, p2, v, x3, end);
    OptVuiBack(s, H264Sps.ParseSize(s, p2), v.vui, end);
  }

  lemma HeaderBack(s: Stream, v: SpsSyntax, end: nat)
    requires SpsOk(v) && Exact(v.id) && Stands(s, 0, SpsItems(v), end)
    ensures var i := s.Past(0, 8) + 16;
            s.Value(0, 8) == v.profile && s.Ue(i) == v.id && Stands(s, s.PastUe(i), RestItems(v), end)
  {
    var j, xs := NextU(s, 0, SpsItems(v), end);
    j, xs := NextU(s, j, xs, end);
    j, xs := NextU(s, j, xs, end);
    j, xs := NextUe(s, j, xs, end);
  }

  /** A parameter set laid down as clauses 7.3.2.1.1, E.1.1 and E.1.2 of ITU-T H.264 say is read back field by
      field, and the parser stops right after its last bit. */
  lemma SpsRoundTrip(s: Stream, v: SpsSyntax, r: Record, end: nat)
    requires Supported(v) && Stands(s, 0, SpsItems(v), end)
    ensures H264Sps.ParseSps(s, r) == H264Sps.Outcome(true, H264Sps.Parsed(Recorded(v, r), end))
  {
    HeaderBack(s, v, end);
    var j := H264Sps.ParseProfile(s, H264Sps.Parsed(r, 0)).at;
    j := s.PastUe(j);
    RestBack(s, H264Sps.Parsed(r.(profileIdc := v.profile, scalingMatrixPresent := 0), j), v, end);
  }

  /** A parameter set is refused if and only if its number is out of range. */
  lemma IdChecked(s: Stream, v: SpsSyntax, r: Record, end: nat)
    requires SpsOk(v) && Exact(v.id) && Stands(s, 0, SpsItems(v), end)
    ensures H264Sps.ParseSps(s, r).ok <==> v.id < 32
  {
    HeaderBack(s, v, end);
  }

  lemma FrameNumParsed(s: Stream, p: Parsed)
    ensures H264Sps.ParsePoc(s, p).rec.log2MaxFrameNum == H264Sps.AtMost12(s.Ue(p.at))
  {
  }

  lemma RecordedFrameNum(v: SpsSyntax, r: Record)
    ensures Recorded(v, r).log2MaxFrameNum == v.log2FrameNum
  {
  }

  predicate TimingSent(v: SpsSyntax) {
    v.vui.Some? && v.vui.value.timing.Some?
  }

  predicate ReorderSent(v: SpsSyntax) {
    v.vui.Some? && v.vui.value.restriction.Some?
  }

  /** Field by field. */
  lemma {:induction false} RecordedFields(v: SpsSyntax, r: Record)
    requires !HasMatrix(v)
    ensures Recorded(v, r).profileIdc == v.profile
    ensures Recorded(v, r).transformBypass == (if v.high.Some? then v.high.value.bypass else r.transformBypass)
    ensures Recorded(v, r).log2MaxFrameNum == v.log2FrameNum
    ensures Recorded(v, r).pocType == (if v.poc.Lsb? then 0 else if v.poc.Cycle? then 1 else 2)
    ensures Recorded(v, r).log2MaxPocLsb == (if v.poc.Lsb? then v.poc.log2 else r.log2MaxPocLsb)
    ensures Recorded(v, r).deltaPicOrderAlwaysZero == (if v.poc.Cycle? then v.poc.alwaysZero else r.deltaPicOrderAlwaysZero)
    ensures Recorded(v, r).mbWidth == 16 * (v.width + 1)
    ensures Recorded(v, r).mbHeight == 16 * (v.height + 1)
    ensures Recorded(v, r).frameMbsOnly == (if v.fieldsAff.None? then 1 else 0)
    ensures Recorded(v, r).crop == (if v.crop.None? then 0 else 1)
    ensures Recorded(v, r).vuiPresent == (if v.vui.None? then 0 else 1)
    ensures Recorded(v, r).sarNum == (if v.vui.Some? then SarWidth(v.vui.value.aspect) else r.sarNum)
    ensures Recorded(v, r).sarDen == (if v.vui.Some? then SarHeight(v.vui.value.aspect) else r.sarDen)
    ensures Recorded(v, r).timingInfoPresent == (if v.vui.None? then r.timingInfoPresent else if v.vui.value.timing.Some? then 1 else 0)
    ensures Recorded(v, r).numUnitsInTick == (if TimingSent(v) then v.vui.value.timing.value.unitsInTick else r.numUnitsInTick)
    ensures Recorded(v, r).timeScale == (if TimingSent(v) then v.vui.value.timing.value.timeScale else r.timeScale)
    ensures Recorded(v, r).fixedFrameRate == (if TimingSent(v) then v.vui.value.timing.value.fixedRate else r.fixedFrameRate)
    ensures Recorded(v, r).bitstreamRestriction == (if v.vui.None? then r.bitstreamRestriction else if v.vui.value.restriction.Some? then 1 else 0)
    ensures Recorded(v, r).numReorderFrames == (if ReorderSent(v) && v.vui.value.restriction.value.reorder <= 16 then v.vui.value.restriction.value.reorder
             else r.numReorderFrames)
    ensures Recorded(v, r).scalingMatrixPresent == 0
  {
    BaseFields(v, r);
    VuiFields(v, RecordedBase(v, r));
  }

  lemma {:induction false} BaseFields(v: SpsSyntax, r: Record)
    requires !HasMatrix(v)
    ensures RecordedBase(v, r).profileIdc == v.profile
    ensures RecordedBase(v, r).transformBypass == (if v.high.Some? then v.high.value.bypass else r.transformBypass)
    ensures RecordedBase(v, r).log2MaxFrameNum == v.log2FrameNum
    ensures RecordedBase(v, r).pocType == (if v.poc.Lsb? then 0 else if v.poc.Cycle? then 1 else 2)
    ensures RecordedBase(v, r).log2MaxPocLsb == (if v.poc.Lsb? then v.poc.log2 else r.log2MaxPocLsb)
    ensures RecordedBase(v, r).deltaPicOrderAlwaysZero == (if v.poc.Cycle? then v.poc.alwaysZero else r.deltaPicOrderAlwaysZero)
    ensures RecordedBase(v, r).mbWidth == 16 * (v.width + 1)
    ensures RecordedBase(v, r).mbHeight == 16 * (v.height + 1)
    ensures RecordedBase(v, r).frameMbsOnly == (if v.fieldsAff.None? then 1 else 0)
    ensures RecordedBase(v, r).crop == (if v.crop.None? then 0 else 1)
    ensures RecordedBase(v, r).scalingMatrixPresent == 0
    ensures RecordedBase(v, r).sarNum == r.sarNum
    ensures RecordedBase(v, r).sarDen == r.sarDen
    ensures RecordedBase(v, r).timingInfoPresent == r.timingInfoPresent
    ensures RecordedBase(v, r).numUnitsInTick == r.numUnitsInTick
    ensures RecordedBase(v, r).timeScale == r.timeScale
    ensures RecordedBase(v, r).fixedFrameRate == r.fixedFrameRate
    ensures RecordedBase(v, r).bitstreamRestriction == r.bitstreamRestriction
    ensures RecordedBase(v, r).numReorderFrames == r.numReorderFrames
  {
  }

  lemma {:induction false} VuiFields(v: SpsSyntax, r: Record)
    ensures RecordedOptVui(v.vui, r).vuiPresent == (if v.vui.None? then 0 else 1)
    ensures RecordedOptVui(v.vui, r).sarNum == (if v.vui.Some? then SarWidth(v.vui.value.aspect) else r.sarNum)
    ensures RecordedOptVui(v.vui, r).sarDen == (if v.vui.Some? then SarHeight(v.vui.value.aspect) else r.sarDen)
    ensures RecordedOptVui(v.vui, r).timingInfoPresent == (if v.vui.None? then r.timingInfoPresent else if v.vui.value.timing.Some? then 1 else 0)
    ensures RecordedOptVui(v.vui, r).numUnitsInTick == (if TimingSent(v) then v.vui.value.timing.value.unitsInTick else r.numUnitsInTick)
    ensures RecordedOptVui(v.vui, r).timeScale == (if TimingSent(v) then v.vui.value.timing.value.timeScale else r.timeScale)
    ensures RecordedOptVui(v.vui, r).fixedFrameRate == (if TimingSent(v) then v.vui.value.timing.value.fixedRate else r.fixedFrameRate)
    ensures RecordedOptVui(v.vui, r).bitstreamRestriction == (if v.vui.None? then r.bitstreamRestriction else if v.vui.value.restriction.Some? then 1 else 0)
    ensures RecordedOptVui(v.vui, r).numReorderFrames == (if ReorderSent(v) && v.vui.value.restriction.value.reorder <= 16 then v.vui.value.restriction.value.reorder
             else r.numReorderFrames)
    ensures RecordedOptVui(v.vui, r).profileIdc == r.profileIdc
    ensures RecordedOptVui(v.vui, r).transformBypass == r.transformBypass
    ensures RecordedOptVui(v.vui, r).log2MaxFrameNum == r.log2MaxFrameNum
    ensures RecordedOptVui(v.vui, r).pocType == r.pocType
    ensures RecordedOptVui(v.vui, r).log2MaxPocLsb == r.log2MaxPocLsb
    ensures RecordedOptVui(v.vui, r).deltaPicOrderAlwaysZero == r.deltaPicOrderAlwaysZero
    ensures RecordedOptVui(v.vui, r).mbWidth == r.mbWidth
    ensures RecordedOptVui(v.vui, r).mbHeight == r.mbHeight
    ensures RecordedOptVui(v.vui, r).frameMbsOnly == r.frameMbsOnly
    ensures RecordedOptVui(v.vui, r).crop == r.crop
    ensures RecordedOptVui(v.vui, r).scalingMatrixPresent == r.scalingMatrixPresent
  {
  }

  // ---------- any buffer ----------

  lemma {:induction false} CpbsOnward(s: Stream, i: nat, n: int)
    ensures Onward(s, i, H264Sps.PastCpbs(s, i, n), 0)
    decreases n
  {
    if n > 0 {
      CpbOnward(s, i);
      CpbsOnward(s, s.Past(s.PastUe(s.PastUe(i)), 1), n - 1);
    }
  }

  lemma CpbOnward(s: Stream, i: nat)
    ensures Onward(s, i, s.Past(s.PastUe(s.PastUe(i)), 1), 0)
  {
    UeOnward(s, i);
    UeOnward(s, s.PastUe(i));
  }

  lemma {:induction false} OffsetsOnward(s: Stream, i: nat, n: int)
    ensures Onward(s, i, H264Sps.PastOffsets(s, i, n), 0)
    decreases n
  {
    if n > 0 {
      UeOnward(s, i);
      OffsetsOnward(s, s.PastUe(i), n - 1);
    }
  }

  lemma HrdOnward(s: Stream, i: nat)
    ensures Onward(s, i, H264Sps.PastHrd(s, i), 0)
  {
    UeOnward(s, i);
    CpbsOnward(s, s.Past(s.Past(s.PastUe(i), 4), 4), H264Sps.CpbCount(s, i));
  }

  lemma HrdsOnward(s: Stream, i: nat)
    ensures Onward(s, i, H264Sps.PastHrds(s, i), 0)
  {
    HrdOnward(s, s.Past(i, 1));
    var j := H264Sps.PastOptHrd(s, i);
    HrdOnward(s, s.Past(j, 1));
  }

  lemma FourOnward(s: Stream, i: nat)
    ensures Onward(s, i, H264Sps.PastFour(s, i), 0)
  {
    UeOnward(s, i);
    var j := s.PastUe(i);
    UeOnward(s, j);
    j := s.PastUe(j);
    UeOnward(s, j);
    UeOnward(s, s.PastUe(j));
  }

  lemma ChromaOnward(s: Stream, i: nat)
    ensures Onward(s, i, H264Sps.PastChroma(s, i), 0)
  {
    UeOnward(s, s.Past(i, 1));
    UeOnward(s, s.PastUe(s.Past(i, 1)));
  }

  lemma RestrictionOnward(s: Stream, p: Parsed)
    ensures Onward(s, p.at, H264Sps.ParseRestriction(s, p).at, 0)
  {
    var i := s.Past(s.Past(p.at, 1), 1);
    FourOnward(s, i);
    i := H264Sps.PastFour(s, i);
    UeOnward(s, i);
    UeOnward(s, s.PastUe(i));
  }

  lemma AspectOnward(s: Stream, p: Parsed)
    ensures Onward(s, p.at, H264Sps.ParseAspect(s, p).at, 0)
  {
  }

  lemma TimingOnward(s: Stream, p: Parsed)
    ensures Onward(s, p.at, H264Sps.ParseTiming(s, p).at, 0)
  {
  }

  lemma SignalOnward(s: Stream, i: nat)
    ensures Onward(s, i, H264Sps.PastSignal(s, H264Sps.PastOverscan(s, i)), 0)
  {
    var j := H264Sps.PastOverscan(s, i);
    assert Onward(s, i, j, 0);
  }

  lemma VuiOnward(s: Stream, p: Parsed)
    ensures Onward(s, p.at, H264Sps.ParseVui(s, p).at, 0)
  {
    AspectOnward(s, p);
    var p1 := H264Sps.ParseAspect(s, p);
    SignalOnward(s, p1.at);
    var i := H264Sps.PastSignal(s, H264Sps.PastOverscan(s, p1.at));
    ChromaOnward(s, i);
    TimingOnward(s, H264Sps.Parsed(p1.rec, H264Sps.PastChroma(s, i)));
    var p2 := H264Sps.ParseTiming(s, H264Sps.Parsed(p1.rec, H264Sps.PastChroma(s, i)));
    HrdsOnward(s, p2.at);
    RestrictionOnward(s, H264Sps.Parsed(p2.rec, H264Sps.PastHrds(s, p2.at)));
  }

  lemma HighOnward(s: Stream, p: Parsed)
    ensures Onward(s, p.at, H264Sps.ParseHigh(s, p).at, 1)
  {
    UeOnward(s, p.at);
    var j := H264Sps.PastChromaFormat(s, p.at);
    UeOnward(s, j);
    UeOnward(s, s.PastUe(j));
  }

  lemma PocOnward(s: Stream, p: Parsed)
    ensures Onward(s, p.at, H264Sps.ParsePoc(s, p).at, 0)
  {
    UeOnward(s, p.at);
    UeOnward(s, s.PastUe(p.at));
    var q := H264Sps.ParseFrameNum(s, p);
    UeOnward(s, q.at);
    CycleOnward(s, q);
  }

  lemma CycleOnward(s: Stream, p: Parsed)
    ensures Onward(s, p.at, H264Sps.ParseCycle(s, p).at, 0)
  {
    var i := s.Past(p.at, 1);
    UeOnward(s, i);
    i := s.PastUe(i);
    UeOnward(s, i);
    i := s.PastUe(i);
    UeOnward(s, i);
    OffsetsOnward(s, s.PastUe(i), H264Sps.AtMost256(s.Ue(i)));
  }

  lemma SizeOnward(s: Stream, p: Parsed)
    ensures Onward(s, p.at, H264Sps.ParseSize(s, p).at, 3)
  {
    UeOnward(s, p.at);
    var i := H264Sps.PastRefs(s, p.at);
    UeOnward(s, i);
    UeOnward(s, s.PastUe(i));
    var q := H264Sps.ParseFrame(s, H264Sps.ParseHeight(s, H264Sps.ParseWidth(s, H264Sps.Parsed(p.rec, i))));
    FourOnward(s, s.Past(q.at, 1));
  }

  /** On any buffer and from anywhere in it, or past it, the parser does not move the cursor back, and only its skips of
      16, 1, 1, 1 and 1 bits move it past the end. */
  lemma SpsOnward(s: Stream, p0: Parsed)
    ensures Onward(s, p0.at, H264Sps.ParseFrom(s, p0).parsed.at, 20)
  {
    var p := H264Sps.ParseProfile(s, p0);
    UeOnward(s, p.at);
    RestOnward(s, H264Sps.Parsed(p.rec.(scalingMatrixPresent := 0), s.PastUe(p.at)));
  }

  lemma RestOnward(s: Stream, p: Parsed)
    ensures Onward(s, p.at, H264Sps.ParseRest(s, p).at, 4)
  {
    HighOnward(s, p);
    var p1 := H264Sps.ParseHigh(s, p);
    PocOnward(s, p1);
    var p2 := H264Sps.ParsePoc(s, p1);
    SizeOnward(s, p2);
    var p3 := H264Sps.ParseSize(s, p2);
    VuiOnward(s, H264Sps.Parsed(p3.rec.(vuiPresent := s.Value(p3.at, 1)), s.Past(p3.at, 1)));
  }

  /** What the slice parser adds 4 to and reads as field widths is at most 12 after a successful parse of any buffer. */
  lemma WidthsBounded(s: Stream, r: Record)
    ensures var q := H264Sps.ParseSps(s, r).parsed.rec;
            H264Sps.ParseSps(s, r).ok ==> q.log2MaxFrameNum <= 12 && (q.pocType == 0 ==> q.log2MaxPocLsb <= 12)
  {
    var p := H264Sps.ParseProfile(s, H264Sps.Parsed(r, 0));
    var p1 := H264Sps.ParseHigh(s, H264Sps.Parsed(p.rec.(scalingMatrixPresent := 0), s.PastUe(p.at)));
    var p2 := H264Sps.ParsePoc(s, p1);
    PocWidths(s, p1);
    PocFieldsKept(s, p2);
  }

  lemma PocWidths(s: Stream, p: Parsed)
    ensures var q := H264Sps.ParsePoc(s, p).rec; q.log2MaxFrameNum <= 12 && (q.pocType == 0 ==> q.log2MaxPocLsb <= 12)
  {
  }

  /** The fields the slice parser goes by. */
  ghost predicate SamePoc(r: Record, r': Record) {
    r'.log2MaxFrameNum == r.log2MaxFrameNum && r'.pocType == r.pocType && r'.log2MaxPocLsb == r.log2MaxPocLsb
  }

  lemma AspectKeeps(s: Stream, p: Parsed)
    ensures SamePoc(p.rec, H264Sps.ParseAspect(s, p).rec)
  {
  }

  lemma TimingKeeps(s: Stream, p: Parsed)
    ensures SamePoc(p.rec, H264Sps.ParseTiming(s, p).rec)
  {
  }

  lemma RestrictionKeeps(s: Stream, p: Parsed)
    ensures SamePoc(p.rec, H264Sps.ParseRestriction(s, p).rec)
  {
  }

  lemma VuiKeeps(s: Stream, p: Parsed)
    ensures SamePoc(p.rec, H264Sps.ParseVui(s, p).rec)
  {
    var p1 := H264Sps.ParseAspect(s, p);
    AspectKeeps(s, p);
    var i := H264Sps.PastSignal(s, H264Sps.PastOverscan(s, p1.at));
    var p2 := H264Sps.Parsed(p1.rec, H264Sps.PastChroma(s, i));
    TimingKeeps(s, p2);
    var p3 := H264Sps.ParseTiming(s, p2);
    RestrictionKeeps(s, H264Sps.Parsed(p3.rec, H264Sps.PastHrds(s, p3.at)));
  }

  lemma SizeKeeps(s: Stream, p: Parsed)
    ensures SamePoc(p.rec, H264Sps.ParseSize(s, p).rec)
  {
  }

  lemma PocFieldsKept(s: Stream, p: Parsed)
    ensures SamePoc(p.rec, H264Sps.ParseOptVui(s, H264Sps.ParseSize(s, p)).rec)
  {
    SizeKeeps(s, p);
    var p1 := H264Sps.ParseSize(s, p);
    var flag := s.Value(p1.at, 1);
    VuiKeeps(s, H264Sps.Parsed(p1.rec.(vuiPresent := flag), s.Past(p1.at, 1)));
  }
}
