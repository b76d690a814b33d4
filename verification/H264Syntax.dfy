/** The sequence parameter set and the slice header as ITU-T H.264 lays them out:
    clauses 7.3.2.1.1, E.1.1, E.1.2 and 7.3.3. Every ...Items function puts the elements
    of one syntax structure before `rest`. */
module H264Syntax {
  import opened ExpGolomb
  import opened Options

  // ---------- E.1.2 hrd_parameters ----------

  datatype Cpbs = NoCpb | Cpb(bitRate: nat, size: nat, cbr: nat, more: Cpbs)

  /** The first CPB entry, and the others. */
  datatype Hrd = Hrd(bitRateScale: nat, cpbSizeScale: nat, cpbs: Cpbs,
                     initialDelayLength: nat, removalDelayLength: nat, outputDelayLength: nat, timeOffsetLength: nat)

  function CpbCount(c: Cpbs): nat {
    if c.NoCpb? then 0 else 1 + CpbCount(c.more)
  }

  function CpbItems(c: Cpbs, rest: Items): Items {
    match c
    case NoCpb => rest
    case Cpb(bitRate, size, cbr, more) =>
      Then(Ue(bitRate), Then(Ue(size), Then(U(1, cbr), CpbItems(more, rest))))
  }

  function HrdItems(h: Hrd, rest: Items): Items
    requires h.cpbs.Cpb?
  {
    Then(Ue(CpbCount(h.cpbs) - 1), Then(U(4, h.bitRateScale), Then(U(4, h.cpbSizeScale),
      CpbItems(h.cpbs, HrdTail(h, rest)))))
  }

  function HrdTail(h: Hrd, rest: Items): Items {
    Then(U(5, h.initialDelayLength), Then(U(5, h.removalDelayLength), Then(U(5, h.outputDelayLength),
      Then(U(5, h.timeOffsetLength), rest))))
  }

  // ---------- E.1.1 vui_parameters ----------

  datatype Aspect = Idc(idc: nat) | ExtendedSar(width: nat, height: nat)

  /** The sample aspect ratio of table E-1, and of aspect_ratio_idc 255; 0 stands for unspecified. */
  ghost function SarWidth(a: Option<Aspect>): nat {
    match a
    case None => 0
    case Some(ExtendedSar(w, _)) => w
    case Some(Idc(idc)) => IdcWidth(idc)
  }

  ghost function SarHeight(a: Option<Aspect>): nat {
    match a
    case None => 0
    case Some(ExtendedSar(_, h)) => h
    case Some(Idc(idc)) => IdcHeight(idc)
  }

  ghost function IdcWidth(idc: nat): nat {
    match idc
    case 1 => 1 case 2 => 12 case 3 => 10 case 4 => 16 case 5 => 40 case 6 => 24 case 7 => 20 case 8 => 32
    case 9 => 80 case 10 => 18 case 11 => 15 case 12 => 64 case 13 => 160 case 14 => 4 case 15 => 3 case 16 => 2
    case _ => 0
  }

  ghost function IdcHeight(idc: nat): nat {
    match idc
    case 1 => 1 case 2 => 11 case 3 => 11 case 4 => 11 case 5 => 33 case 6 => 11 case 7 => 11 case 8 => 11
    case 9 => 33 case 10 => 11 case 11 => 11 case 12 => 33 case 13 => 99 case 14 => 3 case 15 => 2 case 16 => 1
    case _ => 0
  }

  datatype Colour = Colour(primaries: nat, transfer: nat, matrix: nat)

  datatype VideoSignal = VideoSignal(format: nat, fullRange: nat, colour: Option<Colour>)

  datatype ChromaLoc = ChromaLoc(top: nat, bottom: nat)

  datatype Timing = Timing(unitsInTick: nat, timeScale: nat, fixedRate: nat)

  datatype Restriction = Restriction(overBoundaries: nat, bytesDenom: nat, bitsDenom: nat, horizontal: nat, vertical: nat,
                                     reorder: nat, buffering: nat)

  datatype Vui = Vui(aspect: Option<Aspect>, overscan: Option<nat>, signal: Option<VideoSignal>, chroma: Option<ChromaLoc>,
                     timing: Option<Timing>, nal: Option<Hrd>, vcl: Option<Hrd>, lowDelay: nat, picStruct: nat,
                     restriction: Option<Restriction>)

  function AspectItems(a: Option<Aspect>, rest: Items): Items {
    match a
    case None => Then(U(1, 0), rest)
    case Some(Idc(idc)) => Then(U(1, 1), Then(U(8, idc), rest))
    case Some(ExtendedSar(w, h)) => Then(U(1, 1), Then(U(8, 255), Then(U(16, w), Then(U(16, h), rest))))
  }

  function OverscanItems(o: Option<nat>, rest: Items): Items {
    match o
    case None => Then(U(1, 0), rest)
    case Some(b) => Then(U(1, 1), Then(U(1, b), rest))
  }

  function ColourItems(c: Option<Colour>, rest: Items): Items {
    match c
    case None => Then(U(1, 0), rest)
    case Some(Colour(p, t, m)) => Then(U(1, 1), Then(U(8, p), Then(U(8, t), Then(U(8, m), rest))))
  }

  function SignalItems(v: Option<VideoSignal>, rest: Items): Items {
    match v
    case None => Then(U(1, 0), rest)
    case Some(VideoSignal(f, r, c)) => Then(U(1, 1), Then(U(3, f), Then(U(1, r), ColourItems(c, rest))))
  }

  function ChromaItems(c: Option<ChromaLoc>, rest: Items): Items {
    match c
    case None => Then(U(1, 0), rest)
    case Some(ChromaLoc(t, b)) => Then(U(1, 1), Then(Ue(t), Then(Ue(b), rest)))
  }

  function TimingItems(t: Option<Timing>, rest: Items): Items {
    match t
    case None => Then(U(1, 0), rest)
    case Some(Timing(u, s, f)) => Then(U(1, 1), Then(U(32, u), Then(U(32, s), Then(U(1, f), rest))))
  }

  predicate HrdOk(h: Option<Hrd>) {
    h.Some? ==> h.value.cpbs.Cpb? && CpbCount(h.value.cpbs) < 0x8000_0000
  }

  function OptHrdItems(h: Option<Hrd>, rest: Items): Items
    requires HrdOk(h)
  {
    if h.None? then Then(U(1, 0), rest) else Then(U(1, 1), HrdItems(h.value, rest))
  }

  function RestrictionItems(r: Option<Restriction>, rest: Items): Items {
    match r
    case None => Then(U(1, 0), rest)
    case Some(Restriction(o, y, b, h, v, n, d)) =>
      Then(U(1, 1), Then(U(1, o), Then(Ue(y), Then(Ue(b), Then(Ue(h), Then(Ue(v), Then(Ue(n), Then(Ue(d), rest))))))))
  }

  function DelayItems(v: Vui, rest: Items): Items {
    if v.nal.Some? || v.vcl.Some? then Then(U(1, v.lowDelay), rest) else rest
  }

  predicate VuiOk(v: Vui) {
    HrdOk(v.nal) && HrdOk(v.vcl) && (v.aspect.Some? && v.aspect.value.Idc? ==> v.aspect.value.idc < 255)
    && (v.restriction.Some? ==> Exact(v.restriction.value.reorder))
  }

  /** From the HRD parameters on. */
  function VuiTail(v: Vui, rest: Items): Items
    requires VuiOk(v)
  {
    OptHrdItems(v.nal, OptHrdItems(v.vcl, DelayItems(v, Then(U(1, v.picStruct), RestrictionItems(v.restriction, rest)))))
  }

  function VuiItems(v: Vui, rest: Items): Items
    requires VuiOk(v)
  {
    AspectItems(v.aspect, OverscanItems(v.overscan, SignalItems(v.signal, ChromaItems(v.chroma,
      TimingItems(v.timing, VuiTail(v, rest))))))
  }

  // ---------- 7.3.2.1.1 seq_parameter_set_data ----------

  /** The elements of the high profiles. */
  datatype High = High(chromaFormat: nat, separatePlanes: nat, lumaDepth: nat, chromaDepth: nat, bypass: nat,
                       matrix: Option<Lists>)

  /** The scaling lists of a matrix: each one absent, or sent as its delta_scale elements. */
  datatype Lists = NoLists | Lists(list: Option<Offsets>, more: Lists)

  datatype Offsets = NoOffset | Offset(offset: int, more: Offsets)

  datatype Poc = Lsb(log2: nat) | Cycle(alwaysZero: nat, nonRef: int, topToBottom: int, offsets: Offsets) | Output

  datatype Crop = Crop(left: nat, right: nat, top: nat, bottom: nat)

  datatype SpsSyntax = SpsSyntax(profile: nat, constraints: nat, level: nat, id: nat, high: Option<High>, log2FrameNum: nat,
                                 poc: Poc, refFrames: nat, gaps: nat, width: nat, height: nat, fieldsAff: Option<nat>,
                                 direct: nat, crop: Option<Crop>, vui: Option<Vui>)

  function HighItems(h: Option<High>, rest: Items): Items {
    match h
    case None => rest
    case Some(v) => Then(Ue(v.chromaFormat), PlaneItems(v.chromaFormat, v.separatePlanes, BypassItems(v, rest)))
  }

  function BypassItems(v: High, rest: Items): Items {
    Then(Ue(v.lumaDepth), Then(Ue(v.chromaDepth), Then(U(1, v.bypass), MatrixItems(v.matrix, rest))))
  }

  /** seq_scaling_matrix_present_flag, and the lists. */
  function MatrixItems(m: Option<Lists>, rest: Items): Items {
    match m
    case None => Then(U(1, 0), rest)
    case Some(l) => Then(U(1, 1), ListItems(l, rest))
  }

  function ListItems(l: Lists, rest: Items): Items {
    match l
    case NoLists => rest
    case Lists(None, more) => Then(U(1, 0), ListItems(more, rest))
    case Lists(Some(o), more) => Then(U(1, 1), OffsetItems(o, ListItems(more, rest)))
  }

  /** 7.3.2.1.1.1: one delta_scale for each of n places, until a scale of 0. */
  predicate DeltasOk(o: Offsets, n: nat, scale: nat)
    decreases n
  {
    if n == 0 || scale == 0 then o.NoOffset?
    else o.Offset? && -128 <= o.offset <= 127 && DeltasOk(o.more, n - 1, (scale + o.offset + 256) % 256)
  }

  /** The lists from number i on, of n: the first six are of 4x4 blocks, the others of 8x8 blocks. */
  predicate ListsOk(l: Lists, i: nat, n: nat) {
    match l
    case NoLists => i == n
    case Lists(list, more) => i < n && (list.Some? ==> DeltasOk(list.value, if i < 6 then 16 else 64, 8)) && ListsOk(more, i + 1, n)
  }

  predicate HighOk(v: High) {
    v.chromaFormat <= 3 && (v.matrix.Some? ==> ListsOk(v.matrix.value, 0, if v.chromaFormat == 3 then 12 else 8))
  }

  function PlaneItems(chroma: nat, planes: nat, rest: Items): Items {
    if chroma == 3 then Then(U(1, planes), rest) else rest
  }

  function OffsetCount(o: Offsets): nat {
    if o.NoOffset? then 0 else 1 + OffsetCount(o.more)
  }

  function OffsetItems(o: Offsets, rest: Items): Items {
    if o.NoOffset? then rest else Then(Se(o.offset), OffsetItems(o.more, rest))
  }

  function PocItems(p: Poc, rest: Items): Items {
    match p
    case Lsb(n) => Then(Ue(0), Then(Ue(n), rest))
    case Cycle(z, r, t, o) =>
      Then(Ue(1), Then(U(1, z), Then(Se(r), Then(Se(t), Then(Ue(OffsetCount(o)), OffsetItems(o, rest))))))
    case Output => Then(Ue(2), rest)
  }

  /** frame_mbs_only_flag, and mb_adaptive_frame_field_flag if it is 0. */
  function FrameItems(f: Option<nat>, rest: Items): Items {
    match f
    case None => Then(U(1, 1), rest)
    case Some(aff) => Then(U(1, 0), Then(U(1, aff), rest))
  }

  function CropItems(c: Option<Crop>, rest: Items): Items {
    match c
    case None => Then(U(1, 0), rest)
    case Some(Crop(l, r, t, b)) => Then(U(1, 1), Then(Ue(l), Then(Ue(r), Then(Ue(t), Then(Ue(b), rest)))))
  }

  function OptVuiItems(v: Option<Vui>, rest: Items): Items
    requires v.Some? ==> VuiOk(v.value)
  {
    if v.None? then Then(U(1, 0), rest) else Then(U(1, 1), VuiItems(v.value, rest))
  }

  function SizeItems(v: SpsSyntax, rest: Items): Items {
    Then(Ue(v.refFrames), Then(U(1, v.gaps), Then(Ue(v.width), Then(Ue(v.height),
      FrameItems(v.fieldsAff, Then(U(1, v.direct), CropItems(v.crop, rest)))))))
  }

  predicate HasHighElements(profile: nat) {
    profile in {100, 110, 122, 244, 44, 83, 86, 118, 128, 138, 139, 134, 135}
  }

  predicate SpsOk(v: SpsSyntax) {
    && (v.high.Some? <==> HasHighElements(v.profile)) && (v.high.Some? ==> HighOk(v.high.value))
    && (v.vui.Some? ==> VuiOk(v.vui.value))
  }

  predicate HasMatrix(v: SpsSyntax) {
    v.high.Some? && v.high.value.matrix.Some?
  }

  function SpsItems(v: SpsSyntax): Items
    requires SpsOk(v)
  {
    Then(U(8, v.profile), Then(U(8, v.constraints), Then(U(8, v.level), Then(Ue(v.id), RestItems(v)))))
  }

  function RestItems(v: SpsSyntax): Items
    requires SpsOk(v)
  {
    HighItems(v.high, Then(Ue(v.log2FrameNum), PocItems(v.poc, SizeItems(v, OptVuiItems(v.vui, End)))))
  }

  // ---------- 7.3.3 slice_header ----------

  /** As far as h264_decode_slice reads; `field` is bottom_field_flag where field_pic_flag is 1. */
  datatype SliceHeader = SliceHeader(firstMb: nat, sliceType: nat, ppsId: nat, plane: nat, frameNum: nat, field: Option<nat>,
                                     idrPicId: nat, lsb: nat, delta0: int)

  predicate SeparatePlanes(v: SpsSyntax) {
    v.high.Some? && v.high.value.chromaFormat == 3 && v.high.value.separatePlanes == 1
  }

  function PlaneIdItems(v: SpsSyntax, h: SliceHeader, rest: Items): Items {
    if SeparatePlanes(v) then Then(U(2, h.plane), rest) else rest
  }

  function FieldItems(v: SpsSyntax, field: Option<nat>, rest: Items): Items {
    if v.fieldsAff.None? then rest
    else match field
      case None => Then(U(1, 0), rest)
      case Some(bottom) => Then(U(1, 1), Then(U(1, bottom), rest))
  }

  function IdrItems(idr: bool, idrPicId: nat, rest: Items): Items {
    if idr then Then(Ue(idrPicId), rest) else rest
  }

  function PocValueItems(c: Poc, h: SliceHeader, rest: Items): Items {
    match c
    case Lsb(n) => Then(U(n + 4, h.lsb), rest)
    case Cycle(z, _, _, _) => if z == 0 then Then(Se(h.delta0), rest) else rest
    case Output => rest
  }

  /** `rest` stands for the elements from delta_pic_order_cnt_bottom or delta_pic_order_cnt[1] on. */
  function SliceItems(v: SpsSyntax, h: SliceHeader, idr: bool, rest: Items): Items {
    Then(Ue(h.firstMb), Then(Ue(h.sliceType), Then(Ue(h.ppsId), PlaneIdItems(v, h, FrameNumItems(v, h, idr, rest)))))
  }

  function FrameNumItems(v: SpsSyntax, h: SliceHeader, idr: bool, rest: Items): Items {
    Then(U(v.log2FrameNum + 4, h.frameNum), FieldItems(v, h.field, IdrItems(idr, h.idrPicId, PocValueItems(v.poc, h, rest))))
  }

  // ---------- the syntax tables in one piece ----------

  /** seq_parameter_set_data with chroma_format_idc 3, fields, a cropping rectangle and VUI parameters. */
  lemma SpsListing(v: SpsSyntax, log2Lsb: nat)
    requires SpsOk(v) && v.high.Some? && v.high.value.chromaFormat == 3 && v.high.value.matrix.None? && v.poc == Lsb(log2Lsb)
    requires v.fieldsAff.Some? && v.crop.Some? && v.vui.Some?
    ensures var h, c := v.high.value, v.crop.value;
            SpsItems(v) ==
            Then(U(8, v.profile), Then(U(8, v.constraints), Then(U(8, v.level), Then(Ue(v.id), Then(Ue(3),
            Then(U(1, h.separatePlanes), Then(Ue(h.lumaDepth), Then(Ue(h.chromaDepth), Then(U(1, h.bypass), Then(U(1, 0),
            Then(Ue(v.log2FrameNum), Then(Ue(0), Then(Ue(log2Lsb), Then(Ue(v.refFrames), Then(U(1, v.gaps),
            Then(Ue(v.width), Then(Ue(v.height), Then(U(1, 0), Then(U(1, v.fieldsAff.value), Then(U(1, v.direct),
            Then(U(1, 1), Then(Ue(c.left), Then(Ue(c.right), Then(Ue(c.top), Then(Ue(c.bottom),
            Then(U(1, 1), VuiItems(v.vui.value, End)))))))))))))))))))))))))))
  {
  }

  /** pic_order_cnt_type 1 with one offset. */
  lemma CycleListing(z: nat, a: int, b: int, c: int, rest: Items)
    ensures PocItems(Cycle(z, a, b, Offset(c, NoOffset)), rest) ==
            Then(Ue(1), Then(U(1, z), Then(Se(a), Then(Se(b), Then(Ue(1), Then(Se(c), rest))))))
  {
    var o := Offset(c, NoOffset);
    assert OffsetCount(o) == 1 + OffsetCount(NoOffset) == 1;
    assert OffsetItems(o, rest) == Then(Se(c), OffsetItems(NoOffset, rest));
  }

  /** vui_parameters with everything present, up to the HRD parameters. */
  lemma VuiListing(v: Vui, w: nat, h: nat, over: nat, s: VideoSignal, c: Colour, l: ChromaLoc, t: Timing, rest: Items)
    requires VuiOk(v) && v.aspect == Some(ExtendedSar(w, h)) && v.overscan == Some(over) && v.signal == Some(s) && s.colour == Some(c)
    requires v.chroma == Some(l) && v.timing == Some(t)
    ensures VuiItems(v, rest) ==
            Then(U(1, 1), Then(U(8, 255), Then(U(16, w), Then(U(16, h), Then(U(1, 1), Then(U(1, over),
            Then(U(1, 1), Then(U(3, s.format), Then(U(1, s.fullRange), Then(U(1, 1), Then(U(8, c.primaries), Then(U(8, c.transfer),
            Then(U(8, c.matrix), Then(U(1, 1), Then(Ue(l.top), Then(Ue(l.bottom), Then(U(1, 1), Then(U(32, t.unitsInTick),
            Then(U(32, t.timeScale), Then(U(1, t.fixedRate), VuiTail(v, rest)))))))))))))))))))))
  {
  }

  /** From the HRD parameters on, with one set of them that has one entry. */
  lemma VuiTailListing(v: Vui, h: Hrd, rate: nat, size: nat, cbr: nat, r: Restriction, rest: Items)
    requires VuiOk(v) && v.nal == Some(h) && h.cpbs == Cpb(rate, size, cbr, NoCpb) && v.vcl.None? && v.restriction == Some(r)
    ensures VuiTail(v, rest) ==
            Then(U(1, 1), Then(Ue(0), Then(U(4, h.bitRateScale), Then(U(4, h.cpbSizeScale), Then(Ue(rate), Then(Ue(size),
            Then(U(1, cbr), Then(U(5, h.initialDelayLength), Then(U(5, h.removalDelayLength), Then(U(5, h.outputDelayLength),
            Then(U(5, h.timeOffsetLength), Then(U(1, 0), Then(U(1, v.lowDelay), Then(U(1, v.picStruct), Then(U(1, 1),
            Then(U(1, r.overBoundaries), Then(Ue(r.bytesDenom), Then(Ue(r.bitsDenom), Then(Ue(r.horizontal), Then(Ue(r.vertical),
            Then(Ue(r.reorder), Then(Ue(r.buffering), rest))))))))))))))))))))))
  {
    var tail := HrdTail(h, OptHrdItems(v.vcl, DelayItems(v, Then(U(1, v.picStruct), RestrictionItems(v.restriction, rest)))));
    assert CpbCount(h.cpbs) == 1 + CpbCount(NoCpb) == 1;
    assert CpbItems(h.cpbs, tail) == Then(Ue(rate), Then(Ue(size), Then(U(1, cbr), CpbItems(NoCpb, tail))));
  }

  /** slice_header of a field of an IDR picture with a separate colour plane. */
  lemma SliceListing(v: SpsSyntax, h: SliceHeader, bottom: nat, log2Lsb: nat, rest: Items)
    requires SeparatePlanes(v) && v.fieldsAff.Some? && h.field == Some(bottom) && v.poc == Lsb(log2Lsb)
    ensures SliceItems(v, h, true, rest) ==
            Then(Ue(h.firstMb), Then(Ue(h.sliceType), Then(Ue(h.ppsId), Then(U(2, h.plane), Then(U(v.log2FrameNum + 4, h.frameNum),
            Then(U(1, 1), Then(U(1, bottom), Then(Ue(h.idrPicId), Then(U(log2Lsb + 4, h.lsb), rest)))))))))
  {
  }

  /** Table E-1. */
  lemma TableE1()
    ensures [IdcWidth(0), IdcWidth(1), IdcWidth(2), IdcWidth(3), IdcWidth(4), IdcWidth(5), IdcWidth(6), IdcWidth(7), IdcWidth(8)]
         == [0, 1, 12, 10, 16, 40, 24, 20, 32]
    ensures [IdcHeight(0), IdcHeight(1), IdcHeight(2), IdcHeight(3), IdcHeight(4), IdcHeight(5), IdcHeight(6), IdcHeight(7), IdcHeight(8)]
         == [0, 1, 11, 11, 11, 33, 11, 11, 11]
    ensures [IdcWidth(9), IdcWidth(10), IdcWidth(11), IdcWidth(12), IdcWidth(13), IdcWidth(14), IdcWidth(15), IdcWidth(16)]
         == [80, 18, 15, 64, 160, 4, 3, 2]
    ensures [IdcHeight(9), IdcHeight(10), IdcHeight(11), IdcHeight(12), IdcHeight(13), IdcHeight(14), IdcHeight(15), IdcHeight(16)]
         == [33, 11, 11, 33, 99, 3, 2, 1]
    ensures forall idc :: idc > 16 ==> IdcWidth(idc) == IdcHeight(idc) == 0
  {
  }
}
