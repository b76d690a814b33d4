/** bs_t and its functions (ltRtspService/bit/vlc_bits.h), on a byte array. */
module BitStream {
  import opened BitOps
  import opened BitCursor

  class Bits {
    const data: array<byte>
    // p_end, as an offset into data; a buffer of negative size is empty
    const end: int
    // see Stream.wide
    const wide: (nat, nat) -> int32
    // the current byte, and how many of its bits are left
    var p: nat
    var left: int

    /** The cursor invariant. */
    ghost predicate Valid()
      reads this
    {
      1 <= left <= 8 && end <= data.Length
    }

    ghost function Buffer(): Stream
      reads this, data
      requires Valid()
    {
      Stream(data[..if end < 0 then 0 else end], wide)
    }

    /** bs_init */
    constructor (data: array<byte>, size: int, wide: (nat, nat) -> int32)
      requires size <= data.Length
      ensures Valid() && this.data == data && end == size && this.wide == wide && Pos() == 0 && InBuffer()
    {
      this.data, this.end, this.wide := data, size, wide;
      p, left := 0, 8;
    }

    /** bs_pos */
    function Pos(): (r: int)
      reads this
      ensures Valid() ==> r >= 0
    {
      8 * p + 8 - left
    }

    /** bs_eof */
    predicate Eof()
      reads this
    {
      p >= end
    }

    lemma EofPos()
      requires Valid()
      ensures Eof() <==> Pos() >= Buffer().Size()
      ensures !Eof() ==> p < |Buffer().bytes| && Buffer().bytes[p] == data[p]
    {
    }

    /** The cursor has been moved by reads and writes only: past the end it is on a byte boundary. */
    ghost predicate InBuffer()
      reads this
    {
      p < end || left == 8
    }

    /** Steps over n of the bits left in the byte, and on to the next byte after the last. */
    method Consume(n: int)
      requires Valid() && 0 <= n <= left
      modifies this
      ensures Valid() && Pos() == old(Pos()) + n
    {
      left := left - n;
      if left == 0 {
        p := p + 1;
        left := 8;
      }
    }

    /** The turn of bs_read's loop that finds all it wants in the byte. */
    method ReadLast(acc: nat, count: int, ghost i: nat, ghost done: nat) returns (result: nat)
      requires Valid() && !Eof() && 1 <= count <= left && Pos() == i + done && acc == Shl(Buffer().Value(i, done), count)
      modifies this
      ensures Valid() && Buffer() == old(Buffer()) && Pos() == i + done + count && result == old(Buffer().Value(i, done + count))
    {
      EofPos();
      LastChunk(Buffer(), i, done, count, p, left);
      result := Or(acc, And(Shr(data[p] as nat, left - count), Mask(count)));
      Consume(count);
    }

    /** The turn that takes what is left of the byte and wants more. */
    method ReadRest(acc: nat, count: int, ghost i: nat, ghost done: nat) returns (result: nat)
      requires Valid() && !Eof() && left < count <= 32 && Pos() == i + done && acc == Shl(Buffer().Value(i, done), count)
      modifies this
      ensures Valid() && Buffer() == old(Buffer()) && Pos() == i + done + old(left)
      ensures result == old(Shl(Buffer().Value(i, done + left), count - left))
    {
      EofPos();
      FullChunk(Buffer(), i, done, count, p, left);
      result := Or(acc, Shl(And(data[p] as nat, Mask(left)), count - left) % UINT32);
      p := p + 1;
      left := 8;
    }

    /** The ghost cursor of a read: `done` bits have been read from i, none if i is past the end. */
    ghost predicate Reading(i: nat, done: nat)
      reads this, data
      requires Valid()
    {
      if i >= Buffer().Size() then done == 0 && Pos() == i else Pos() == i + done <= Buffer().Size()
    }

    /** One turn of the loop; `stop` where it breaks or returns. */
    method ReadChunk(acc: nat, count: int, ghost i: nat, ghost done: nat)
        returns (stop: bool, result: nat, rest: int, ghost done': nat)
      requires Valid() && 1 <= count <= 32 && Reading(i, done) && acc == Shl(Buffer().Value(i, done), count)
      modifies this
      ensures Valid() && Buffer() == old(Buffer()) && (old(InBuffer()) ==> InBuffer())
      ensures stop ==> result == Buffer().Value(i, done + count) && Pos() == Buffer().Past(i, done + count)
      ensures !stop ==> 0 <= rest < count && done' + rest == done + count && Reading(i, done')
      ensures !stop ==> result == Shl(Buffer().Value(i, done'), rest)
    {
      EofPos();
      stop, result, rest, done' := true, acc, count, done;
      if p >= end {
        ShortRead(Buffer(), i, done, done + count);
      } else if left - count >= 0 {
        result := ReadLast(acc, count, i, done);
      } else {
        stop, rest, done' := false, count - left, done + left;
        result := ReadRest(acc, count, i, done);
        EofPos();
      }
    }

    /** bs_read: up to 32 bits, the first one most significant, in chunks of what is left of a byte. */
    method Read(count0: int) returns (result: nat)
      requires Valid() && count0 <= 32
      modifies this
      ensures Valid() && Buffer() == old(Buffer())
      ensures var n := if count0 < 0 then 0 else count0;
              result == old(Buffer().Value(Pos(), n)) && Pos() == old(Buffer().Past(Pos(), n))
      ensures old(InBuffer()) ==> InBuffer()
    {
      ghost var s, i, n := Buffer(), Pos(), if count0 < 0 then 0 else count0;
      ghost var done := 0;
      var count := count0;
      result := 0;
      ShlZero(n);
      while count > 0
        invariant Valid() && Buffer() == s
        invariant if count0 <= 0 then count == count0 && done == 0 else 0 <= count && done + count == n
        invariant result == Shl(s.Value(i, done), n - done)
        invariant Reading(i, done) && (old(InBuffer()) ==> InBuffer())
        decreases count
      {
        var stop;
        stop, result, count, done := ReadChunk(result, count, i, done);
        if stop {
          return;
        }
      }
    }

    /** bs_read1 */
    method Read1() returns (result: nat)
      requires Valid()
      modifies this
      ensures Valid() && Buffer() == old(Buffer()) && result == Num(old(Buffer().At(Pos()))) && Pos() == old(Buffer().Past(Pos(), 1))
      ensures old(InBuffer()) ==> InBuffer()
    {
      EofPos();
      if p < end {
        NextBit(Buffer(), p, left);
        result := And(Shr(data[p] as nat, left - 1), 0x01);
        Consume(1);
      } else {
        result := 0;
      }
    }

    /** bs_show: the same value as bs_read, from a copy of the cursor. */
    method Show(count: int) returns (result: nat)
      requires Valid() && count <= 32
      ensures result == Buffer().Value(Pos(), if count < 0 then 0 else count)
    {
      var tmp := new Bits(data, end, wide);
      tmp.p, tmp.left := p, left;
      result := tmp.Read(count);
    }

    /** bs_skip, which does not stop at the end of the buffer. */
    method Skip(count: nat)
      requires Valid()
      modifies this
      ensures Valid() && Buffer() == old(Buffer()) && Pos() == old(Pos()) + count
    {
      left := left - count;
      while left <= 0
        invariant left <= 8 && end <= data.Length && Pos() == old(Pos()) + count
        decreases -left
      {
        p := p + 1;
        left := left + 8;
      }
    }

    /** Sets the next bit. */
    method WriteBit(b: bool)
      requires Valid() && !Eof()
      modifies this, data
      ensures Valid() && Pos() == old(Pos()) + 1 && BitSet(old(Buffer()), Buffer(), old(Pos()), b)
      ensures forall k :: 0 <= k < data.Length && end <= k ==> data[k] == old(data[k])
    {
      ghost var s := Buffer();
      EofPos();
      ByteSizes(data[p], left - 1);
      if b {
        data[p] := Or(data[p] as nat, Shl(1, left - 1)) as byte;
      } else {
        data[p] := And(data[p] as nat, AllBut(left - 1)) as byte;
      }
      ByteBitSet(s, Buffer(), p, left, b);
      Consume(1);
    }

    /** bs_write: the low `count` bits of `bits`, most significant first, as far as there is room. */
    method Write(count0: int, bits: nat)
      requires Valid() && count0 <= 32 && bits < UINT32
      modifies this, data
      ensures Valid()
      ensures var n := if count0 < 0 then 0 else count0;
              Laid(old(Buffer()), Buffer(), old(Pos()), n, bits) && Pos() == old(Buffer().Past(Pos(), n))
      ensures forall k :: 0 <= k < data.Length && end <= k ==> data[k] == old(data[k])
      ensures old(InBuffer()) ==> InBuffer()
      ensures old(Eof()) ==> p == old(p) && left == old(left) && data[..] == old(data[..])
    {
      ghost var s, i, n := Buffer(), Pos(), if count0 < 0 then 0 else count0;
      ghost var done := 0;
      var count := count0;
      while count > 0
        invariant old(Eof()) ==> p == old(p) && left == old(left) && data[..] == old(data[..])
        invariant Valid() && if count0 <= 0 then count == count0 && done == 0 else 0 <= count && done + count == n
        invariant Laid(s, Buffer(), i, done, Shr(bits, n - done))
        invariant if i >= s.Size() then done == 0 && Pos() == i else Pos() == i + done <= s.Size()
        invariant forall k :: 0 <= k < data.Length && end <= k ==> data[k] == old(data[k])
        decreases count
      {
        EofPos();
        if p >= end {
          break;
        }
        count := count - 1;
        ghost var s1 := Buffer();
        ShiftedBit(bits, count);
        WriteBit(And(Shr(bits, count), 0x01) != 0);
        LaidOneMore(s, s1, Buffer(), i, n, done, bits);
        done := done + 1;
      }
      LaidAll(s, Buffer(), i, n, done, bits);
    }

    /** bs_align: on to the next byte boundary. */
    method Align()
      requires Valid()
      modifies this
      ensures Valid() && Pos() == old(if left == 8 then Pos() else 8 * (p + 1))
    {
      if left != 8 {
        left := 8;
        p := p + 1;
      }
    }

    lemma AlignedPast()
      requires Valid()
      ensures Buffer().Past(Pos(), left) == if Eof() then Pos() else 8 * (p + 1)
    {
    }

    /** bs_align_0: the same, with zeros written over what is skipped; a cursor past the end stays. */
    method Align0()
      requires Valid()
      modifies this, data
      ensures Valid() && Laid(old(Buffer()), Buffer(), old(Pos()), if old(left) == 8 then 0 else old(left), 0)
      ensures Pos() == old(if left == 8 || Eof() then Pos() else 8 * (p + 1))
    {
      if left != 8 {
        AlignedPast();
        Write(left, 0);
      }
    }

    /** bs_align_1, with ones. */
    method Align1()
      requires Valid() && InBuffer()
      modifies this, data
      ensures Valid() && Laid(old(Buffer()), Buffer(), old(Pos()), if old(left) == 8 then 0 else old(left), 0xFF)
      ensures Pos() == old(if left == 8 then Pos() else 8 * (p + 1))
    {
      ghost var s, i, n := Buffer(), Pos(), if left == 8 then 0 else left;
      ghost var done := 0;
      while left != 8
        invariant Valid() && InBuffer() && Buffer().Size() == s.Size()
        invariant done <= n && left == (if done == n then 8 else n - done) && Pos() == i + done
        invariant Laid(s, Buffer(), i, done, 0xFF)
        decreases n - done
      {
        ghost var s1 := Buffer();
        EofPos();
        Write(1, 1);
        OnesLaid(s, s1, Buffer(), i, done);
        done := done + 1;
      }
    }

    /** One turn of bs_align_1's loop for any other cursor: nothing changes, so the loop does not end. */
    method Align1Turn()
      requires Valid() && !InBuffer()
      modifies this, data
      ensures Valid() && !InBuffer() && left != 8 && p == old(p) && left == old(left) && data[..] == old(data[..])
    {
      Write(1, 1);
    }

    /** The loop of bs_read_ue: the zeros before a one, 32 at most. */
    method CountZeros() returns (i: nat)
      requires Valid()
      modifies this
      ensures Valid() && Buffer() == old(Buffer()) && i <= 32 && i == old(Buffer().Zeros(Pos(), 0)) && Pos() == old(Buffer().Stop(Pos(), 0))
      ensures old(InBuffer()) ==> InBuffer()
    {
      ghost var s, start := Buffer(), Pos();
      i := 0;
      var bit := Read1();
      while bit == 0 && p < end && i < 32
        invariant Valid() && Buffer() == s && i <= 32 && (bit == 0 || bit == 1) && (old(InBuffer()) ==> InBuffer())
        invariant if bit == 0 && p < end && i < 32
                  then s.Zeros(Pos(), i + 1) == s.Zeros(start, 0) && s.Stop(Pos(), i + 1) == s.Stop(start, 0)
                  else s.Zeros(start, 0) == i && s.Stop(start, 0) == Pos()
        decreases 32 - i
      {
        i := i + 1;
        EofPos();
        bit := Read1();
        EofPos();
      }
    }

    /** bs_read_ue */
    method ReadUe() returns (v: int)
      requires Valid()
      modifies this
      ensures Valid() && Buffer() == old(Buffer()) && v == old(Buffer().Ue(Pos())) && Pos() == old(Buffer().PastUe(Pos()))
      ensures old(InBuffer()) ==> InBuffer()
      ensures old(Eof()) ==> v == 0 && Pos() == old(Pos())
    {
      var i := CountZeros();
      var low := Read(i);
      ShlOne(i);
      v := if i <= 30 then Shl(1, i) - 1 + low else wide(i, low) as int;
    }

    /** bs_read_se */
    method ReadSe() returns (v: int)
      requires Valid()
      modifies this
      ensures Valid() && Buffer() == old(Buffer()) && v == old(Buffer().Se(Pos())) && Pos() == old(Buffer().PastUe(Pos()))
      ensures old(InBuffer()) ==> InBuffer()
    {
      var val := ReadUe();
      v := SeValue(val);
    }
  }
}
