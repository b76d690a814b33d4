/** h264_decode_seq_parameter_set and h264_decode_hrd_parameters
    (ltRtspService/bit/h264_sps.h). The Parse... and Past... functions say what each part
    of the parser makes of any buffer; the methods are the parser. */
module H264Sps {
  import opened BitOps
  import opened BitCursor
  import opened BitStream

  /** The fields of h264_sps_t that the parser sets. */
  datatype Record = Record(profileIdc: int, transformBypass: int, log2MaxFrameNum: int, pocType: int, log2MaxPocLsb: int,
                           deltaPicOrderAlwaysZero: int, mbWidth: int, mbHeight: int, frameMbsOnly: int, crop: int,
                           vuiPresent: int, sarNum: int, sarDen: int, timingInfoPresent: int, numUnitsInTick: int,
                           timeScale: int, fixedFrameRate: int, bitstreamRestriction: int, numReorderFrames: int,
                           scalingMatrixPresent: int)

  /** The record so far and the cursor. */
  datatype Parsed = Parsed(rec: Record, at: nat)

  const SAR_NUM: seq<int> := [0, 1, 12, 10, 16, 40, 24, 20, 32, 80, 18, 15, 64, 160, 4, 3, 2]
  const SAR_DEN: seq<int> := [0, 1, 11, 11, 11, 33, 11, 11, 11, 33, 11, 11, 33, 99, 3, 2, 1]

  // ---------- HRD ----------

  ghost function PastCpbs(s: Stream, i: nat, n: int): nat
    decreases n
  {
    if n <= 0 then i else PastCpbs(s, s.Past(s.PastUe(s.PastUe(i)), 1), n - 1)
  }

  ghost function PastHrdTail(s: Stream, i: nat): nat {
    s.Past(s.Past(s.Past(s.Past(i, 5), 5), 5), 5)
  }

  ghost function PastHrd(s: Stream, i: nat): nat {
    PastHrdTail(s, PastCpbs(s, s.Past(s.Past(s.PastUe(i), 4), 4), CpbCount(s, i)))
  }

  /** In the width of the C type. */
  ghost function CpbCount(s: Stream, i: nat): int {
    Wrap(s.Ue(i) + 1)
  }

  method ReadCpbCount(s: Bits) returns (r: int)
    requires s.Valid()
    modifies s
    ensures s.Valid() && s.Buffer() == old(s.Buffer()) && s.Pos() == s.Buffer().PastUe(old(s.Pos()))
    ensures r == old(CpbCount(s.Buffer(), s.Pos()))
  {
    r := s.ReadUe();
    r := Wrap(r + 1);
  }

  method DecodeHrd(s: Bits)
    requires s.Valid()
    modifies s
    ensures s.Valid() && s.Buffer() == old(s.Buffer()) && s.Pos() == PastHrd(s.Buffer(), old(s.Pos()))
  {
    var cpbCount := ReadCpbCount(s);
    var unused := s.Read(4);
    unused := s.Read(4);
    DecodeCpbs(s, cpbCount);
    DecodeHrdTail(s);
  }

  method DecodeHrdTail(s: Bits)
    requires s.Valid()
    modifies s
    ensures s.Valid() && s.Buffer() == old(s.Buffer()) && s.Pos() == PastHrdTail(s.Buffer(), old(s.Pos()))
  {
    var unused := s.Read(5);
    unused := s.Read(5);
    unused := s.Read(5);
    unused := s.Read(5);
  }

  method DecodeCpbs(s: Bits, cpbCount: int)
    requires s.Valid()
    modifies s
    ensures s.Valid() && s.Buffer() == old(s.Buffer()) && s.Pos() == PastCpbs(s.Buffer(), old(s.Pos()), cpbCount)
  {
    ghost var st, start := s.Buffer(), s.Pos();
    var i := 0;
    while i < cpbCount
      invariant s.Valid() && s.Buffer() == st
      invariant if i < cpbCount then PastCpbs(st, s.Pos(), cpbCount - i) == PastCpbs(st, start, cpbCount)
                else s.Pos() == PastCpbs(st, start, cpbCount)
      decreases cpbCount - i
    {
      var unused := s.ReadUe();
      unused := s.ReadUe();
      var cbr := s.Read(1);
      i := i + 1;
    }
  }

  ghost function PastFour(s: Stream, i: nat): nat {
    s.PastUe(s.PastUe(s.PastUe(s.PastUe(i))))
  }

  /** Four code words that are not recorded. */
  method SkipFour(s: Bits)
    requires s.Valid()
    modifies s
    ensures s.Valid() && s.Buffer() == old(s.Buffer()) && s.Pos() == PastFour(s.Buffer(), old(s.Pos()))
  {
    var unused := s.ReadUe();
    unused := s.ReadUe();
    unused := s.ReadUe();
    unused := s.ReadUe();
  }

  // ---------- VUI ----------

  ghost function ParseAspect(s: Stream, p: Parsed): Parsed {
    var i := s.Past(p.at, 1);
    if s.Value(p.at, 1) == 0 then Parsed(p.rec.(sarNum := 0, sarDen := 0), i)
    else
      var idc, j := s.Value(i, 8), s.Past(i, 8);
      if idc < 17 then Parsed(p.rec.(sarNum := SAR_NUM[idc], sarDen := SAR_DEN[idc]), j)
      else if idc == 255 then
        Parsed(p.rec.(sarNum := s.Value(j, 16), sarDen := s.Value(s.Past(j, 16), 16)), s.Past(s.Past(j, 16), 16))
      else Parsed(p.rec.(sarNum := 0, sarDen := 0), j)
  }

  ghost function PastOverscan(s: Stream, i: nat): nat {
    if s.Value(i, 1) == 0 then s.Past(i, 1) else s.Past(s.Past(i, 1), 1)
  }

  ghost function PastColour(s: Stream, i: nat): nat {
    if s.Value(i, 1) == 0 then s.Past(i, 1) else s.Past(s.Past(s.Past(s.Past(i, 1), 8), 8), 8)
  }

  ghost function PastSignal(s: Stream, i: nat): nat {
    if s.Value(i, 1) == 0 then s.Past(i, 1) else PastColour(s, s.Past(s.Past(s.Past(i, 1), 3), 1))
  }

  ghost function PastChroma(s: Stream, i: nat): nat {
    if s.Value(i, 1) == 0 then s.Past(i, 1) else s.PastUe(s.PastUe(s.Past(i, 1)))
  }

  ghost function ParseTiming(s: Stream, p: Parsed): Parsed {
    var flag, i := s.Value(p.at, 1), s.Past(p.at, 1);
    var rec := p.rec.(timingInfoPresent := flag);
    if flag == 0 then Parsed(rec, i) else ParseTicks(s, Parsed(rec, i))
  }

  ghost function ParseTicks(s: Stream, p: Parsed): Parsed {
    var j := s.Past(p.at, 32);
    var k := s.Past(j, 32);
    Parsed(p.rec.(numUnitsInTick := s.Value(p.at, 32), timeScale := s.Value(j, 32), fixedFrameRate := s.Value(k, 1)), s.Past(k, 1))
  }

  ghost function PastOptHrd(s: Stream, i: nat): nat {
    if s.Value(i, 1) == 0 then s.Past(i, 1) else PastHrd(s, s.Past(i, 1))
  }

  /** Both HRD structures, low_delay_hrd_flag and pic_struct_present_flag. */
  ghost function PastHrds(s: Stream, i: nat): nat {
    var j := PastOptHrd(s, i);
    var k := PastOptHrd(s, j);
    s.Past(if s.Value(i, 1) != 0 || s.Value(j, 1) != 0 then s.Past(k, 1) else k, 1)
  }

  ghost function ParseRestriction(s: Stream, p: Parsed): Parsed {
    var flag, i := s.Value(p.at, 1), s.Past(p.at, 1);
    var rec := p.rec.(bitstreamRestriction := flag);
    if flag == 0 then Parsed(rec, i) else ParseReorder(s, Parsed(rec, PastFour(s, s.Past(i, 1))))
  }

  /** A 32-bit value as the unsigned type has it. */
  function Unsigned(x: int): int {
    if x < 0 then x + UINT32 else x
  }

  /** More than 16 frames are not recorded; the number is unsigned. */
  ghost function ParseReorder(s: Stream, p: Parsed): Parsed {
    var reorder := Unsigned(s.Ue(p.at));
    Parsed(if reorder > 16 then p.rec else p.rec.(numReorderFrames := reorder), s.PastUe(s.PastUe(p.at)))
  }

  ghost function ParseVui(s: Stream, p: Parsed): Parsed {
    var p1 := ParseAspect(s, p);
    var p2 := ParseTiming(s, Parsed(p1.rec, PastChroma(s, PastSignal(s, PastOverscan(s, p1.at)))));
    ParseRestriction(s, Parsed(p2.rec, PastHrds(s, p2.at)))
  }

  ghost function ParseOptVui(s: Stream, p: Parsed): Parsed {
    var flag := s.Value(p.at, 1);
    var q := Parsed(p.rec.(vuiPresent := flag), s.Past(p.at, 1));
    if flag == 0 then q else ParseVui(s, q)
  }

  // ---------- the rest ----------

  /** The elements of profiles from 100 on; the scaling matrix flag is skipped. */
  ghost function ParseHigh(s: Stream, p: Parsed): Parsed {
    if p.rec.profileIdc < 100 then p else ParseBypass(s, Parsed(p.rec, PastChromaFormat(s, p.at)))
  }

  ghost function PastChromaFormat(s: Stream, i: nat): nat {
    if s.Ue(i) == 3 then s.Past(s.PastUe(i), 1) else s.PastUe(i)
  }

  /** From bit_depth_luma_minus8 on. */
  ghost function ParseBypass(s: Stream, p: Parsed): Parsed {
    var j := s.PastUe(s.PastUe(p.at));
    Parsed(p.rec.(transformBypass := s.Value(j, 1)), s.Past(j, 1) + 1)
  }

  function AtMost12(x: int): int {
    if x > 12 then 12 else x
  }

  ghost function PastOffsets(s: Stream, i: nat, n: int): nat
    decreases n
  {
    if n <= 0 then i else PastOffsets(s, s.PastUe(i), n - 1)
  }

  /** log2_max_frame_num_minus4 and pic_order_cnt_type. */
  ghost function ParseFrameNum(s: Stream, p: Parsed): Parsed {
    Parsed(p.rec.(log2MaxFrameNum := AtMost12(s.Ue(p.at)), pocType := s.Ue(s.PastUe(p.at))), s.PastUe(s.PastUe(p.at)))
  }

  ghost function ParseCycle(s: Stream, p: Parsed): Parsed {
    var k := s.PastUe(s.PastUe(s.Past(p.at, 1)));
    Parsed(p.rec.(deltaPicOrderAlwaysZero := s.Value(p.at, 1)), PastOffsets(s, s.PastUe(k), AtMost256(s.Ue(k))))
  }

  function AtMost256(x: int): int {
    if x > 256 then 256 else x
  }

  ghost function ParsePoc(s: Stream, p0: Parsed): Parsed {
    var p := ParseFrameNum(s, p0);
    if p.rec.pocType == 0 then Parsed(p.rec.(log2MaxPocLsb := AtMost12(s.Ue(p.at))), s.PastUe(p.at))
    else if p.rec.pocType == 1 then ParseCycle(s, p)
    else p
  }

  ghost function PastCrop(s: Stream, i: nat): nat {
    if s.Value(i, 1) == 0 then s.Past(i, 1) else PastFour(s, s.Past(i, 1))
  }

  /** A width or height in macroblocks, less one: the size in luma samples, in the width of the C type. */
  ghost function SizeAt(s: Stream, i: nat): int {
    Wrap(16 * (s.Ue(i) + 1))
  }

  method ReadSize(s: Bits) returns (r: int)
    requires s.Valid()
    modifies s
    ensures s.Valid() && s.Buffer() == old(s.Buffer()) && s.Pos() == s.Buffer().PastUe(old(s.Pos()))
    ensures r == old(SizeAt(s.Buffer(), s.Pos()))
  {
    r := s.ReadUe();
    r := Wrap(16 * (r + 1));
  }

  ghost function ParseWidth(s: Stream, p: Parsed): Parsed {
    Parsed(p.rec.(mbWidth := SizeAt(s, p.at)), s.PastUe(p.at))
  }

  ghost function ParseHeight(s: Stream, p: Parsed): Parsed {
    Parsed(p.rec.(mbHeight := SizeAt(s, p.at)), s.PastUe(p.at))
  }

  ghost function ParseFrame(s: Stream, p: Parsed): Parsed {
    var flag := s.Value(p.at, 1);
    Parsed(p.rec.(frameMbsOnly := flag), s.Past(p.at, 1) + (if flag == 0 then 1 else 0) + 1)
  }

  ghost function ParseCrop(s: Stream, p: Parsed): Parsed {
    Parsed(p.rec.(crop := s.Value(p.at, 1)), PastCrop(s, p.at))
  }

  ghost function ParseSize(s: Stream, p: Parsed): Parsed {
    ParseCrop(s, ParseFrame(s, ParseHeight(s, ParseWidth(s, Parsed(p.rec, PastRefs(s, p.at))))))
  }

  /** num_ref_frames and gaps_in_frame_num_value_allowed_flag. */
  ghost function PastRefs(s: Stream, i: nat): nat {
    s.PastUe(i) + 1
  }

  method SkipRefs(s: Bits)
    requires s.Valid()
    modifies s
    ensures s.Valid() && s.Buffer() == old(s.Buffer()) && s.Pos() == PastRefs(s.Buffer(), old(s.Pos()))
  {
    var refFrames := s.ReadUe();
    s.Skip(1);
  }

  datatype Outcome = Outcome(ok: bool, parsed: Parsed)

  /** profile_idc; the cursor goes to seq_parameter_set_id. */
  ghost function ParseProfile(s: Stream, p: Parsed): Parsed {
    Parsed(p.rec.(profileIdc := s.Value(p.at, 8)), s.Past(p.at, 8) + 16)
  }

  ghost function ParseFrom(s: Stream, p0: Parsed): Outcome {
    var p := ParseProfile(s, p0);
    if s.Ue(p.at) >= 32 then Outcome(false, Parsed(p.rec, s.PastUe(p.at)))
    else Outcome(true, ParseRest(s, Parsed(p.rec.(scalingMatrixPresent := 0), s.PastUe(p.at))))
  }

  /** h264_decode_seq_parameter_set on any buffer, from the fields as they were. */
  ghost function ParseSps(s: Stream, rec: Record): Outcome {
    ParseFrom(s, Parsed(rec, 0))
  }

  /** From the elements of the high profiles on. */
  ghost function ParseRest(s: Stream, p: Parsed): Parsed {
    ParseOptVui(s, ParseSize(s, ParsePoc(s, ParseHigh(s, p))))
  }

  /** A refused parameter set changes nothing but profile_idc. */
  lemma Refusal(s: Stream, r: Record)
    ensures var i := s.Past(0, 8) + 16;
            && (ParseSps(s, r).ok <==> s.Ue(i) < 32)
            && (!ParseSps(s, r).ok ==> ParseSps(s, r).parsed == Parsed(r.(profileIdc := s.Value(0, 8)), s.PastUe(i)))
  {
  }

  /** h264_sps_t */
  class Sps {
    var profileIdc: int
    var transformBypass: int
    var log2MaxFrameNum: int
    var pocType: int
    var log2MaxPocLsb: int
    var deltaPicOrderAlwaysZero: int
    var mbWidth: int
    var mbHeight: int
    var frameMbsOnly: int
    var crop: int
    var vuiPresent: int
    var sarNum: int
    var sarDen: int
    var timingInfoPresent: int
    var numUnitsInTick: int
    var timeScale: int
    var fixedFrameRate: int
    var bitstreamRestriction: int
    var numReorderFrames: int
    var scalingMatrixPresent: int

    ghost function View(): Record
      reads this
    {
      Record(profileIdc, transformBypass, log2MaxFrameNum, pocType, log2MaxPocLsb, deltaPicOrderAlwaysZero, mbWidth, mbHeight,
             frameMbsOnly, crop, vuiPresent, sarNum, sarDen, timingInfoPresent, numUnitsInTick, timeScale, fixedFrameRate,
             bitstreamRestriction, numReorderFrames, scalingMatrixPresent)
    }

    ghost function Now(s: Bits): Parsed
      reads this, s
      requires s.Valid()
    {
      Parsed(View(), s.Pos())
    }

    method DecodeAspect(s: Bits)
      requires s.Valid()
      modifies this`sarNum, this`sarDen, s
      ensures s.Valid() && s.Buffer() == old(s.Buffer()) && Now(s) == old(ParseAspect(s.Buffer(), Now(s)))
    {
      var flag := s.Read(1);
      if flag != 0 {
        var idc := s.Read(8);
        if idc < 17 {
          sarNum := SAR_NUM[idc];
          sarDen := SAR_DEN[idc];
        } else if idc == 255 {
          sarNum := s.Read(16);
          sarDen := s.Read(16);
        } else {
          sarNum := 0;
          sarDen := 0;
        }
      } else {
        sarNum := 0;
        sarDen := 0;
      }
    }

    method DecodeTiming(s: Bits)
      requires s.Valid()
      modifies this`timingInfoPresent, this`numUnitsInTick, this`timeScale, this`fixedFrameRate, s
      ensures s.Valid() && s.Buffer() == old(s.Buffer()) && Now(s) == old(ParseTiming(s.Buffer(), Now(s)))
    {
      timingInfoPresent := s.Read(1);
      if timingInfoPresent != 0 {
        DecodeTicks(s);
      }
    }

    method DecodeTicks(s: Bits)
      requires s.Valid()
      modifies this`numUnitsInTick, this`timeScale, this`fixedFrameRate, s
      ensures s.Valid() && s.Buffer() == old(s.Buffer()) && Now(s) == old(ParseTicks(s.Buffer(), Now(s)))
    {
      numUnitsInTick := s.Read(32);
      timeScale := s.Read(32);
      fixedFrameRate := s.Read(1);
    }

    method DecodeRestriction(s: Bits)
      requires s.Valid()
      modifies this`bitstreamRestriction, this`numReorderFrames, s
      ensures s.Valid() && s.Buffer() == old(s.Buffer()) && Now(s) == old(ParseRestriction(s.Buffer(), Now(s)))
    {
      bitstreamRestriction := s.Read(1);
      if bitstreamRestriction != 0 {
        var unused := s.Read(1);
        SkipFour(s);
        DecodeReorder(s);
      }
    }

    method DecodeReorder(s: Bits)
      requires s.Valid()
      modifies this`numReorderFrames, s
      ensures s.Valid() && s.Buffer() == old(s.Buffer()) && Now(s) == old(ParseReorder(s.Buffer(), Now(s)))
    {
      var reorder := s.ReadUe();
      reorder := Unsigned(reorder);
      var buffering := s.ReadUe();
      if reorder > 16 {
        return;
      }
      numReorderFrames := reorder;
    }

    method DecodeVui(s: Bits)
      requires s.Valid()
      modifies this`sarNum, this`sarDen, this`timingInfoPresent, this`numUnitsInTick, this`timeScale,
               this`fixedFrameRate, this`bitstreamRestriction, this`numReorderFrames, s
      ensures s.Valid() && s.Buffer() == old(s.Buffer()) && Now(s) == old(ParseVui(s.Buffer(), Now(s)))
    {
      DecodeAspect(s);
      SkipOverscan(s);
      SkipSignal(s);
      SkipChroma(s);
      DecodeTiming(s);
      DecodeHrds(s);
      DecodeRestriction(s);
    }

    method DecodeHigh(s: Bits)
      requires s.Valid()
      modifies this`transformBypass, s
      ensures s.Valid() && s.Buffer() == old(s.Buffer()) && Now(s) == old(ParseHigh(s.Buffer(), Now(s)))
    {
      if profileIdc >= 100 {
        var chroma := s.ReadUe();
        if chroma == 3 {
          var plane := s.Read(1);
        }
        DecodeBypass(s);
      }
    }

    method DecodeBypass(s: Bits)
      requires s.Valid()
      modifies this`transformBypass, s
      ensures s.Valid() && s.Buffer() == old(s.Buffer()) && Now(s) == old(ParseBypass(s.Buffer(), Now(s)))
    {
      var depth := s.ReadUe();
      depth := s.ReadUe();
      transformBypass := s.Read(1);
      s.Skip(1);
    }

    method DecodeFrameNum(s: Bits)
      requires s.Valid()
      modifies this`log2MaxFrameNum, this`pocType, s
      ensures s.Valid() && s.Buffer() == old(s.Buffer()) && Now(s) == old(ParseFrameNum(s.Buffer(), Now(s)))
    {
      log2MaxFrameNum := s.ReadUe();
      if log2MaxFrameNum > 12 {
        log2MaxFrameNum := 12;
      }
      pocType := s.ReadUe();
    }

    method DecodeCycle(s: Bits)
      requires s.Valid()
      modifies this`deltaPicOrderAlwaysZero, s
      ensures s.Valid() && s.Buffer() == old(s.Buffer()) && Now(s) == old(ParseCycle(s.Buffer(), Now(s)))
    {
      deltaPicOrderAlwaysZero := s.Read(1);
      var offset := s.ReadSe();
      offset := s.ReadSe();
      var cycle := s.ReadUe();
      if cycle > 256 {
        cycle := 256;
      }
      SkipOffsets(s, cycle);
    }

    method DecodePoc(s: Bits)
      requires s.Valid()
      modifies this`log2MaxFrameNum, this`pocType, this`log2MaxPocLsb, this`deltaPicOrderAlwaysZero, s
      ensures s.Valid() && s.Buffer() == old(s.Buffer()) && Now(s) == old(ParsePoc(s.Buffer(), Now(s)))
    {
      DecodeFrameNum(s);
      if pocType == 0 {
        log2MaxPocLsb := s.ReadUe();
        if log2MaxPocLsb > 12 {
          log2MaxPocLsb := 12;
        }
      } else if pocType == 1 {
        DecodeCycle(s);
      }
    }

    method DecodeWidth(s: Bits)
      requires s.Valid()
      modifies this`mbWidth, s
      ensures s.Valid() && s.Buffer() == old(s.Buffer()) && Now(s) == old(ParseWidth(s.Buffer(), Now(s)))
    {
      mbWidth := ReadSize(s);
    }

    method DecodeHeight(s: Bits)
      requires s.Valid()
      modifies this`mbHeight, s
      ensures s.Valid() && s.Buffer() == old(s.Buffer()) && Now(s) == old(ParseHeight(s.Buffer(), Now(s)))
    {
      mbHeight := ReadSize(s);
    }

    method DecodeFrame(s: Bits)
      requires s.Valid()
      modifies this`frameMbsOnly, s
      ensures s.Valid() && s.Buffer() == old(s.Buffer()) && Now(s) == old(ParseFrame(s.Buffer(), Now(s)))
    {
      frameMbsOnly := s.Read(1);
      if frameMbsOnly == 0 {
        s.Skip(1);
      }
      s.Skip(1);
    }

    method DecodeSize(s: Bits)
      requires s.Valid()
      modifies this`mbWidth, this`mbHeight, this`frameMbsOnly, this`crop, s
      ensures s.Valid() && s.Buffer() == old(s.Buffer()) && Now(s) == old(ParseSize(s.Buffer(), Now(s)))
    {
      SkipRefs(s);
      DecodeWidth(s);
      DecodeHeight(s);
      DecodeFrame(s);
      crop := SkipCrop(s);
    }

    /** h264_decode_seq_parameter_set: the fields and the cursor `s` left behind are what ParseSps says. */
    method Decode(nal: array<byte>, size: int, wide: (nat, nat) -> int32) returns (ok: bool, s: Bits)
      requires size <= nal.Length
      modifies this
      ensures s.Valid() && s.Buffer() == Stream(nal[..if size < 0 then 0 else size], wide)
      ensures Outcome(ok, Now(s)) == ParseSps(s.Buffer(), old(View()))
      // a refused parameter set leaves all fields but profile_idc, and the cursor right after its number
      ensures var i := s.Buffer().Past(0, 8) + 16;
              (ok <==> s.Buffer().Ue(i) < 32) && (!ok ==> s.Pos() == s.Buffer().PastUe(i) && profileIdc == s.Buffer().Value(0, 8))
      ensures !ok ==> unchanged(this`transformBypass, this`log2MaxFrameNum, this`pocType, this`log2MaxPocLsb,
                     this`deltaPicOrderAlwaysZero, this`mbWidth, this`mbHeight, this`frameMbsOnly, this`crop,
                     this`vuiPresent, this`sarNum, this`sarDen, this`timingInfoPresent, this`numUnitsInTick,
                     this`timeScale, this`fixedFrameRate, this`bitstreamRestriction, this`numReorderFrames,
                     this`scalingMatrixPresent)
    {
      s := new Bits(nal, size, wide);
      ghost var r := View();
      ok := DecodeFrom(s);
      Refusal(s.Buffer(), r);
    }

    method DecodeFrom(s: Bits) returns (ok: bool)
      requires s.Valid()
      modifies this, s
      ensures s.Valid() && s.Buffer() == old(s.Buffer()) && Outcome(ok, Now(s)) == old(ParseFrom(s.Buffer(), Now(s)))
    {
      DecodeProfile(s);
      var id := s.ReadUe();
      if id >= 32 {
        return false;
      }
      scalingMatrixPresent := 0;
      DecodeRest(s);
      return true;
    }

    method DecodeProfile(s: Bits)
      requires s.Valid()
      modifies this`profileIdc, s
      ensures s.Valid() && s.Buffer() == old(s.Buffer()) && Now(s) == old(ParseProfile(s.Buffer(), Now(s)))
    {
      profileIdc := s.Read(8);
      s.Skip(1 + 1 + 1 + 5 + 8);
    }

    method DecodeRest(s: Bits)
      requires s.Valid()
      modifies this`transformBypass, this`log2MaxFrameNum, this`pocType, this`log2MaxPocLsb,
               this`deltaPicOrderAlwaysZero, this`mbWidth, this`mbHeight, this`frameMbsOnly, this`crop,
               this`vuiPresent, this`sarNum, this`sarDen, this`timingInfoPresent, this`numUnitsInTick, this`timeScale,
               this`fixedFrameRate, this`bitstreamRestriction, this`numReorderFrames, s
      ensures s.Valid() && s.Buffer() == old(s.Buffer()) && Now(s) == old(ParseRest(s.Buffer(), Now(s)))
    {
      DecodeHigh(s);
      DecodePoc(s);
      DecodeSize(s);
      DecodeOptVui(s);
    }

    method DecodeOptVui(s: Bits)
      requires s.Valid()
      modifies this`vuiPresent, this`sarNum, this`sarDen, this`timingInfoPresent, this`numUnitsInTick, this`timeScale,
               this`fixedFrameRate, this`bitstreamRestriction, this`numReorderFrames, s
      ensures s.Valid() && s.Buffer() == old(s.Buffer()) && Now(s) == old(ParseOptVui(s.Buffer(), Now(s)))
    {
      vuiPresent := s.Read(1);
      if vuiPresent != 0 {
        DecodeVui(s);
      }
    }
  }

  method SkipOverscan(s: Bits)
    requires s.Valid()
    modifies s
    ensures s.Valid() && s.Buffer() == old(s.Buffer()) && s.Pos() == PastOverscan(s.Buffer(), old(s.Pos()))
  {
    var flag := s.Read(1);
    if flag != 0 {
      flag := s.Read(1);
    }
  }

  method SkipSignal(s: Bits)
    requires s.Valid()
    modifies s
    ensures s.Valid() && s.Buffer() == old(s.Buffer()) && s.Pos() == PastSignal(s.Buffer(), old(s.Pos()))
  {
    var flag := s.Read(1);
    if flag != 0 {
      var unused := s.Read(3);
      unused := s.Read(1);
      SkipColour(s);
    }
  }

  method SkipColour(s: Bits)
    requires s.Valid()
    modifies s
    ensures s.Valid() && s.Buffer() == old(s.Buffer()) && s.Pos() == PastColour(s.Buffer(), old(s.Pos()))
  {
    var flag := s.Read(1);
    if flag != 0 {
      var unused := s.Read(8);
      unused := s.Read(8);
      unused := s.Read(8);
    }
  }

  method SkipChroma(s: Bits)
    requires s.Valid()
    modifies s
    ensures s.Valid() && s.Buffer() == old(s.Buffer()) && s.Pos() == PastChroma(s.Buffer(), old(s.Pos()))
  {
    var flag := s.Read(1);
    if flag != 0 {
      var location := s.ReadUe();
      location := s.ReadUe();
    }
  }

  method DecodeHrds(s: Bits)
    requires s.Valid()
    modifies s
    ensures s.Valid() && s.Buffer() == old(s.Buffer()) && s.Pos() == PastHrds(s.Buffer(), old(s.Pos()))
  {
    var nal := s.Read(1);
    if nal != 0 {
      DecodeHrd(s);
    }
    var vcl := s.Read(1);
    if vcl != 0 {
      DecodeHrd(s);
    }
    if nal != 0 || vcl != 0 {
      var lowDelay := s.Read(1);
    }
    var picStruct := s.Read(1);
  }

  method SkipOffsets(s: Bits, cycle0: int)
    requires s.Valid()
    modifies s
    ensures s.Valid() && s.Buffer() == old(s.Buffer()) && s.Pos() == PastOffsets(s.Buffer(), old(s.Pos()), cycle0)
  {
    ghost var st, start := s.Buffer(), s.Pos();
    var cycle := cycle0;
    while cycle > 0
      invariant s.Valid() && s.Buffer() == st && PastOffsets(st, s.Pos(), cycle) == PastOffsets(st, start, cycle0)
      decreases cycle
    {
      var offset := s.ReadSe();
      cycle := cycle - 1;
    }
  }

  method SkipCrop(s: Bits) returns (crop: nat)
    requires s.Valid()
    modifies s
    ensures s.Valid() && s.Buffer() == old(s.Buffer()) && s.Pos() == PastCrop(s.Buffer(), old(s.Pos()))
    ensures crop == s.Buffer().Value(old(s.Pos()), 1)
  {
    crop := s.Read(1);
    if crop != 0 {
      SkipFour(s);
    }
  }
}
