/** h264_decode_slice (ltRtspService/bit/h264_slice.h). Its field widths and branches come from the parameter set. */
module H264Slice {
  import opened BitOps
  import opened BitCursor
  import opened BitStream
  import H264Sps

  type Record = H264Sps.Record

  /** The fields of h264_slice_t, and the cursor. */
  datatype Parsed = Parsed(sliceType: int, frameNum: nat, picOrderCntLsb: nat, at: nat)

  const NAL_SLICE_IDR := 5

  /** The number of bits a read asked for `width` of them looks at. */
  function Count(width: int): nat {
    if width < 0 then 0 else width
  }

  /** The cursor at frame_num. */
  ghost function AtFrameNum(s: Stream, i: nat): nat {
    s.PastUe(s.PastUe(s.PastUe(i)))
  }

  ghost function FrameBits(sps: Record): nat {
    Count(sps.log2MaxFrameNum + 4)
  }

  /** field_pic_flag and bottom_field_flag. */
  ghost function PastField(s: Stream, i: nat, sps: Record): nat {
    if sps.frameMbsOnly != 0 then i
    else if s.Value(i, 1) == 0 then s.Past(i, 1) else s.Past(s.Past(i, 1), 1)
  }

  /** idr_pic_id */
  ghost function PastIdr(s: Stream, i: nat, nalType: int): nat {
    if nalType == NAL_SLICE_IDR then s.PastUe(i) else i
  }

  /** The cursor at pic_order_cnt_lsb or delta_pic_order_cnt. */
  ghost function AtPoc(s: Stream, i: nat, nalType: int, sps: Record): nat {
    PastIdr(s, PastField(s, s.Past(AtFrameNum(s, i), FrameBits(sps)), sps), nalType)
  }

  ghost function PocBits(sps: Record): nat {
    if sps.pocType == 0 then Count(sps.log2MaxPocLsb + 4) else 0
  }

  ghost function PastPoc(s: Stream, i: nat, sps: Record): nat {
    if sps.pocType == 0 then s.Past(i, PocBits(sps))
    else if sps.pocType == 1 && sps.deltaPicOrderAlwaysZero == 0 then s.PastUe(i)
    else i
  }

  ghost function ParseFrom(s: Stream, i: nat, nalType: int, sps: Record): Parsed {
    var j := AtPoc(s, i, nalType, sps);
    Parsed(s.Ue(s.PastUe(i)), s.Value(AtFrameNum(s, i), FrameBits(sps)), s.Value(j, PocBits(sps)), PastPoc(s, j, sps))
  }

  /** h264_decode_slice on any buffer. */
  ghost function ParseSlice(s: Stream, nalType: int, sps: Record): Parsed {
    ParseFrom(s, 0, nalType, sps)
  }

  method SkipField(s: Bits, sps: H264Sps.Sps)
    requires s.Valid()
    modifies s
    ensures s.Valid() && s.Buffer() == old(s.Buffer()) && s.Pos() == PastField(s.Buffer(), old(s.Pos()), old(sps.View()))
  {
    if sps.frameMbsOnly == 0 {
      var fieldPic := s.Read(1);
      if fieldPic != 0 {
        var bottom := s.Read(1);
      }
    }
  }

  /** h264_slice_t */
  class Slice {
    var sliceType: int
    var frameNum: nat
    var picOrderCntLsb: nat

    /** The two widths are what a shift table of 33 entries is indexed with. */
    method Decode(nal: array<byte>, size: int, wide: (nat, nat) -> int32, nalType: int, sps: H264Sps.Sps) returns (s: Bits)
      requires size <= nal.Length && sps.log2MaxFrameNum <= 28 && (sps.pocType == 0 ==> sps.log2MaxPocLsb <= 28)
      modifies this
      ensures s.Valid() && s.Buffer() == Stream(nal[..if size < 0 then 0 else size], wide)
      ensures Parsed(sliceType, frameNum, picOrderCntLsb, s.Pos()) == ParseSlice(s.Buffer(), nalType, sps.View())
    {
      s := new Bits(nal, size, wide);
      DecodeStart(s, sps);
      SkipField(s, sps);
      if nalType == NAL_SLICE_IDR {
        var idr := s.ReadUe();
      }
      DecodePoc(s, sps);
    }

    method DecodeStart(s: Bits, sps: H264Sps.Sps)
      requires s.Valid() && s.Pos() == 0 && sps.log2MaxFrameNum <= 28
      modifies this, s
      ensures s.Valid() && s.Buffer() == old(s.Buffer())
      ensures sliceType == s.Buffer().Ue(s.Buffer().PastUe(0))
      ensures frameNum == s.Buffer().Value(AtFrameNum(s.Buffer(), 0), FrameBits(sps.View()))
      ensures s.Pos() == s.Buffer().Past(AtFrameNum(s.Buffer(), 0), FrameBits(sps.View()))
    {
      var firstMb := s.ReadUe();
      sliceType := s.ReadUe();
      var pps := s.ReadUe();
      frameNum := s.Read(sps.log2MaxFrameNum + 4);
    }

    method DecodePoc(s: Bits, sps: H264Sps.Sps)
      requires s.Valid() && (sps.pocType == 0 ==> sps.log2MaxPocLsb <= 28)
      modifies this`picOrderCntLsb, s
      ensures s.Valid() && s.Buffer() == old(s.Buffer())
      ensures picOrderCntLsb == old(s.Buffer().Value(s.Pos(), PocBits(sps.View())))
      ensures s.Pos() == old(PastPoc(s.Buffer(), s.Pos(), sps.View()))
    {
      picOrderCntLsb := 0;
      if sps.pocType == 0 {
        picOrderCntLsb := s.Read(sps.log2MaxPocLsb + 4);
      } else if sps.pocType == 1 && sps.deltaPicOrderAlwaysZero == 0 {
        var delta := s.ReadSe();
      }
    }
  }
}
