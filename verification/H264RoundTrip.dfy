/** A parameter set and a slice header laid down with bs_write and taken in by the two parsers. */
module H264RoundTrip {
  import opened BitOps
  import opened BitCursor
  import opened BitStream
  import opened ExpGolomb
  import opened Options
  import opened BitWriter
  import opened H264Syntax
  import H264Sps
  import H264SpsProof
  import H264Profiles
  import AnnexB
  import H264Slice
  import H264SliceProof

  /** The bits the elements take. */
  function Room(xs: Items): nat {
    Before(xs, Count(xs))
  }

  /** Lays the elements down from the start of the array. */
  method Lay(nal: array<byte>, wide: (nat, nat) -> int32, xs: Items) returns (end: nat)
    requires AllFit(xs) && Room(xs) <= 8 * nal.Length
    modifies nal
    ensures Stands(Stream(nal[..], wide), 0, xs, end)
  {
    var b := new Bits(nal, nal.Length, wide);
    assert nal[..nal.Length] == nal[..];
    PutAll(b, xs);
    assert nal[..nal.Length] == nal[..];
    end := b.Pos();
  }

  /** A parameter set comes through with every recorded field, and the parser's cursor is where the writer's was. */
  method SpsThrough(v: SpsSyntax, nal: array<byte>, wide: (nat, nat) -> int32, sps: H264Sps.Sps) returns (ok: bool, s: Bits, ghost end: nat)
    requires H264SpsProof.Supported(v) && AllFit(SpsItems(v)) && Room(SpsItems(v)) <= 8 * nal.Length
    modifies nal, sps
    ensures ok && sps.View() == H264SpsProof.Recorded(v, old(sps.View()))
    ensures s.Valid() && s.Pos() == end && Stands(Stream(nal[..], wide), 0, SpsItems(v), end)
    ensures sps.profileIdc == v.profile
    ensures sps.transformBypass == (if v.high.Some? then v.high.value.bypass else old(sps.transformBypass))
    ensures sps.log2MaxFrameNum == v.log2FrameNum
    ensures sps.pocType == (if v.poc.Lsb? then 0 else if v.poc.Cycle? then 1 else 2)
    ensures sps.log2MaxPocLsb == (if v.poc.Lsb? then v.poc.log2 else old(sps.log2MaxPocLsb))
    ensures sps.deltaPicOrderAlwaysZero == (if v.poc.Cycle? then v.poc.alwaysZero else old(sps.deltaPicOrderAlwaysZero))
    ensures sps.mbWidth == 16 * (v.width + 1)
    ensures sps.mbHeight == 16 * (v.height + 1)
    ensures sps.frameMbsOnly == (if v.fieldsAff.None? then 1 else 0)
    ensures sps.crop == (if v.crop.None? then 0 else 1)
    ensures sps.vuiPresent == (if v.vui.None? then 0 else 1)
    ensures sps.sarNum == (if v.vui.Some? then SarWidth(v.vui.value.aspect) else old(sps.sarNum))
    ensures sps.sarDen == (if v.vui.Some? then SarHeight(v.vui.value.aspect) else old(sps.sarDen))
    ensures sps.timingInfoPresent == (if v.vui.None? then old(sps.timingInfoPresent) else if v.vui.value.timing.Some? then 1 else 0)
    ensures sps.numUnitsInTick == (if H264SpsProof.TimingSent(v) then v.vui.value.timing.value.unitsInTick else old(sps.numUnitsInTick))
    ensures sps.timeScale == (if H264SpsProof.TimingSent(v) then v.vui.value.timing.value.timeScale else old(sps.timeScale))
    ensures sps.fixedFrameRate == (if H264SpsProof.TimingSent(v) then v.vui.value.timing.value.fixedRate else old(sps.fixedFrameRate))
    ensures sps.bitstreamRestriction == (if v.vui.None? then old(sps.bitstreamRestriction) else if v.vui.value.restriction.Some? then 1 else 0)
    ensures sps.numReorderFrames == (if H264SpsProof.ReorderSent(v) && v.vui.value.restriction.value.reorder <= 16 then v.vui.value.restriction.value.reorder
             else old(sps.numReorderFrames))
    ensures sps.scalingMatrixPresent == 0
  {
    H264SpsProof.RecordedFields(v, sps.View());
    ok, s, end := SpsLaid(v, nal, wide, sps);
  }

  /** The same with the fields in one record. */
  method SpsLaid(v: SpsSyntax, nal: array<byte>, wide: (nat, nat) -> int32, sps: H264Sps.Sps) returns (ok: bool, s: Bits, ghost end: nat)
    requires H264SpsProof.Supported(v) && AllFit(SpsItems(v)) && Room(SpsItems(v)) <= 8 * nal.Length
    modifies nal, sps
    ensures ok && sps.View() == H264SpsProof.Recorded(v, old(sps.View()))
    ensures s.Valid() && s.Pos() == end && Stands(Stream(nal[..], wide), 0, SpsItems(v), end)
  {
    ghost var r := sps.View();
    var n := Lay(nal, wide, SpsItems(v));
    end := n;
    ok, s := sps.Decode(nal, nal.Length, wide);
    assert nal[..nal.Length] == nal[..];
    H264SpsProof.SpsRoundTrip(Stream(nal[..], wide), v, r, end);
  }

  /** The payload of a NAL unit that was escaped is stripped and parsed: the parameter set comes back. A payload ends in a
      bit that is one, and then not in a byte 0. */
  lemma SpsEscaped(rbsp: seq<byte>, wide: (nat, nat) -> int32, v: SpsSyntax, r: H264Sps.Record, end: nat)
    requires H264SpsProof.Supported(v) && Stands(Stream(rbsp, wide), 0, SpsItems(v), end) && !AnnexB.EndsInZero(rbsp)
    ensures H264Sps.ParseSps(Stream(AnnexB.Strip(AnnexB.Escape(rbsp)), wide), r)
         == H264Sps.Outcome(true, H264Sps.Parsed(H264SpsProof.Recorded(v, r), end))
  {
    AnnexB.StripRight(rbsp);
    H264SpsProof.SpsRoundTrip(Stream(rbsp, wide), v, r, end);
  }

  /** h264_decode_annexb and then h264_decode_seq_parameter_set, on any bytes. */
  method SpsFromNal(src: array<byte>, wide: (nat, nat) -> int32, sps: H264Sps.Sps) returns (ok: bool, s: Bits)
    modifies sps
    ensures s.Valid() && H264Sps.Outcome(ok, H264Sps.Parsed(sps.View(), s.Pos()))
                      == H264Sps.ParseSps(Stream(AnnexB.Strip(src[..]), wide), old(sps.View()))
  {
    var dst := new byte[src.Length];
    var n := AnnexB.DecodeAnnexB(dst, src, src.Length);
    assert src[..src.Length] == src[..];
    ok, s := sps.Decode(dst, n, wide);
  }

  /** A slice header behind its parameter set. */
  method SliceThrough(v: SpsSyntax, h: SliceHeader, nalType: int, nal: array<byte>, nal': array<byte>, wide: (nat, nat) -> int32,
                      sps: H264Sps.Sps, slice: H264Slice.Slice)
    requires H264SpsProof.Supported(v) && !SeparatePlanes(v) && nal != nal'
    requires AllFit(SpsItems(v)) && Room(SpsItems(v)) <= 8 * nal.Length
    requires var xs := SliceItems(v, h, nalType == 5, End); AllFit(xs) && Room(xs) <= 8 * nal'.Length
    modifies nal, nal', sps, slice
    ensures (Exact(h.sliceType) ==> slice.sliceType == h.sliceType) && slice.frameNum == h.frameNum
    ensures slice.picOrderCntLsb == if v.poc.Lsb? then h.lsb else 0
  {
    ghost var r := sps.View();
    var ok, s, s';
    ghost var end;
    ok, s, end := SpsLaid(v, nal, wide, sps);
    ghost var nalBits := Stream(nal[..], wide);
    H264SpsProof.SpsRoundTrip(nalBits, v, r, end);
    var end' := Lay(nal', wide, SliceItems(v, h, nalType == 5, End));
    H264SliceProof.RecordedTells(v, r);
    H264SliceProof.SliceAfterSps(nalBits, Stream(nal'[..], wide), v, r, end, h, nalType, End, end');
    s' := slice.Decode(nal', nal'.Length, wide, nalType, sps);
    assert nal'[..nal'.Length] == nal'[..];
  }

  /** A parameter set that is not read right: it is laid down, and 1, 5 or 12 is recorded for the 4. */
  method SmallThrough(profile: nat, matrix: bool, wide: (nat, nat) -> int32, sps: H264Sps.Sps) returns (nal: array<byte>)
    requires profile < 0x100 && (!H264SpsProof.Told(profile) || matrix) && (matrix ==> HasHighElements(profile))
    modifies sps
    ensures sps.log2MaxFrameNum == H264Profiles.SmallRecorded(profile) != H264Profiles.Small(profile, matrix).log2FrameNum
    ensures sps.View() != H264SpsProof.Recorded(H264Profiles.Small(profile, matrix), old(sps.View()))
  {
    ghost var r := sps.View();
    H264Profiles.SmallFits(profile, matrix);
    var xs := SpsItems(H264Profiles.Small(profile, matrix));
    nal := new byte[Room(xs)];
    var end := Lay(nal, wide, xs);
    var ok, s := sps.Decode(nal, nal.Length, wide);
    assert nal[..nal.Length] == nal[..];
    H264Profiles.SmallMisread(Stream(nal[..], wide), profile, matrix, r, end);
  }

  /** With separate colour planes frame_num comes through as PlaneMisread says. */
  method PlanesThrough(v: SpsSyntax, h: SliceHeader, nalType: int, nal: array<byte>, nal': array<byte>, wide: (nat, nat) -> int32,
                       sps: H264Sps.Sps, slice: H264Slice.Slice)
    requires H264SpsProof.Supported(v) && SeparatePlanes(v) && nal != nal'
    requires AllFit(SpsItems(v)) && Room(SpsItems(v)) <= 8 * nal.Length
    requires var xs := SliceItems(v, h, nalType == 5, End); AllFit(xs) && Room(xs) <= 8 * nal'.Length
    modifies nal, nal', sps, slice
    ensures slice.frameNum == Shl(h.plane, v.log2FrameNum + 2) + Shr(h.frameNum, 2)
  {
    ghost var r := sps.View();
    var ok, s, s';
    ghost var end;
    ok, s, end := SpsLaid(v, nal, wide, sps);
    var end' := Lay(nal', wide, SliceItems(v, h, nalType == 5, End));
    H264SliceProof.RecordedTells(v, r);
    H264SliceProof.PlaneMisread(Stream(nal'[..], wide), sps.View(), v, h, nalType, End, end');
    s' := slice.Decode(nal', nal'.Length, wide, nalType, sps);
    assert nal'[..nal'.Length] == nal'[..];
  }

  method PlaneExample() returns (v: SpsSyntax, h: SliceHeader)
    ensures H264SpsProof.Supported(v) && SeparatePlanes(v) && AllFit(SpsItems(v)) && AllFit(SliceItems(v, h, 1 == 5, End))
    ensures Shl(h.plane, v.log2FrameNum + 2) + Shr(h.frameNum, 2) == 64 && h.frameNum == 0
  {
    H264SliceProof.ThreePlanesFit();
    v, h := H264SliceProof.ThreePlanes(), H264SliceProof.SecondPlane();
    assert Shl(1, 6) == 64 && Shr(0, 2) == 0;
  }

  /** A slice of the second plane is laid down behind its parameter set, and frame 64 is recorded for frame 0. */
  method PlaneThrough(wide: (nat, nat) -> int32, sps: H264Sps.Sps, slice: H264Slice.Slice) returns (h: SliceHeader)
    modifies sps, slice
    ensures slice.frameNum == 64 && h.frameNum == 0
  {
    var v;
    v, h := PlaneExample();
    var nal := new byte[Room(SpsItems(v))];
    var nal' := new byte[Room(SliceItems(v, h, 1 == 5, End))];
    PlanesThrough(v, h, 1, nal, nal', wide, sps, slice);
  }
}
