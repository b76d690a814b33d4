/** Syntax elements laid down with bs_write (ltRtspService/bit/vlc_bits.h). */
module BitWriter {
  import opened Powers
  import opened BitOps
  import opened BitCursor
  import opened BitStream
  import opened ExpGolomb

  /** The code word of v: as many zeros as v + 1 has binary digits after the first, and v + 1. */
  method PutUe(b: Bits, v: nat)
    requires b.Valid() && Fits(Ue(v)) && b.Pos() + Length(Ue(v)) <= b.Buffer().Size()
    modifies b, b.data
    ensures b.Valid() && b.Pos() == old(b.Pos()) + Length(Ue(v)) && UeHere(b.Buffer(), old(b.Pos()), v)
    ensures SameElsewhere(old(b.Buffer()), b.Buffer(), old(b.Pos()), b.Pos())
  {
    ghost var s, i := b.Buffer(), b.Pos();
    var z := Prefix(v + 1);
    CodeSmall(v + 1);
    b.Write(z, 0);
    ghost var s1 := b.Buffer();
    b.Write(z + 1, v + 1);
    UeWritten(s, s1, b.Buffer(), i, v);
  }

  method PutU(b: Bits, n: nat, v: nat)
    requires b.Valid() && Fits(U(n, v)) && b.Pos() + n <= b.Buffer().Size()
    modifies b, b.data
    ensures b.Valid() && b.Pos() == old(b.Pos()) + n && Here(b.Buffer(), old(b.Pos()), U(n, v))
    ensures SameElsewhere(old(b.Buffer()), b.Buffer(), old(b.Pos()), b.Pos())
  {
    Pow2Monotone(n, 32);
    Pow2Values();
    b.Write(n, v);
  }

  method Put(b: Bits, x: Item)
    requires b.Valid() && Fits(x) && b.Pos() + Length(x) <= b.Buffer().Size()
    modifies b, b.data
    ensures b.Valid() && b.Pos() == old(b.Pos()) + Length(x) && Here(b.Buffer(), old(b.Pos()), x)
    ensures SameElsewhere(old(b.Buffer()), b.Buffer(), old(b.Pos()), b.Pos())
  {
    match x {
      case U(n, v) => PutU(b, n, v);
      case Ue(v) => PutUe(b, v);
      case Se(v) => PutUe(b, CodeNum(v));
    }
  }

  /** Lays the elements down one after the other; nothing else in the buffer changes. */
  method PutAll(b: Bits, xs: Items)
    requires b.Valid() && AllFit(xs) && b.Pos() + Before(xs, Count(xs)) <= b.Buffer().Size()
    modifies b, b.data
    ensures b.Valid() && old(b.Pos()) <= b.Pos() && Stands(b.Buffer(), old(b.Pos()), xs, b.Pos())
    ensures SameElsewhere(old(b.Buffer()), b.Buffer(), old(b.Pos()), b.Pos())
    decreases xs
  {
    if xs.Then? {
      ghost var s0, i := b.Buffer(), b.Pos();
      Put(b, xs.item);
      ghost var s, j := b.Buffer(), b.Pos();
      PutAll(b, xs.rest);
      HereStays(s, b.Buffer(), i, xs.item, j, b.Pos());
      SameTwice(s0, s, b.Buffer(), i, j, b.Pos());
      StandsThen(b.Buffer(), i, xs.item, xs.rest, b.Pos());
    }
  }

  // ---------- reading back ----------

  /** Which of bs_read, bs_read_ue and bs_read_se an element is for. */
  datatype Kind = Fixed(n: nat) | Unsigned | Signed

  function KindOf(x: Item): Kind {
    match x
    case U(n, _) => Fixed(n)
    case Ue(_) => Unsigned
    case Se(_) => Signed
  }

  function Kinds(xs: Items): seq<Kind> {
    if xs.End? then [] else [KindOf(xs.item)] + Kinds(xs.rest)
  }

  function ValueOf(x: Item): int {
    match x
    case U(_, v) => v
    case Ue(v) => v
    case Se(v) => v
  }

  function Values(xs: Items): seq<int> {
    if xs.End? then [] else [ValueOf(xs.item)] + Values(xs.rest)
  }

  predicate AllExact(xs: Items) {
    xs.Then? ==> ItemExact(xs.item) && AllExact(xs.rest)
  }

  method ReadOne(b: Bits, kind: Kind, ghost x: Item, ghost rest: Items, ghost end: nat) returns (v: int)
    requires b.Valid() && kind == KindOf(x) && Stands(b.Buffer(), b.Pos(), Then(x, rest), end)
    modifies b
    ensures b.Valid() && b.Buffer() == old(b.Buffer()) && (ItemExact(x) ==> v == ValueOf(x)) && Stands(b.Buffer(), b.Pos(), rest, end)
  {
    ghost var s, i := b.Buffer(), b.Pos();
    GetOne(s, i, x, rest, end);
    StandsFirst(s, i, x, rest, end);
    match kind {
      case Fixed(n) => v := b.Read(n);
      case Unsigned => v := b.ReadUe();
      case Signed => v := b.ReadSe();
    }
  }

  /** Calls the readers for the kinds in turn: the values of the elements that stand there. */
  method ReadKinds(b: Bits, kinds: seq<Kind>, ghost xs: Items, ghost end: nat) returns (vs: seq<int>)
    requires b.Valid() && kinds == Kinds(xs) && Stands(b.Buffer(), b.Pos(), xs, end)
    modifies b
    ensures b.Valid() && b.Buffer() == old(b.Buffer()) && (AllExact(xs) ==> vs == Values(xs)) && b.Pos() == end
    decreases |kinds|
  {
    if kinds == [] {
      assert StandsAt(b.Buffer(), b.Pos(), xs, end, 0);
      vs := [];
    } else {
      var v := ReadOne(b, kinds[0], xs.item, xs.rest, end);
      var rest := ReadKinds(b, kinds[1..], xs.rest, end);
      vs := [v] + rest;
    }
  }

  /** What is laid down, the readers return in turn, from a copy of the cursor made before; both cursors end together. */
  method RoundTrip(b: Bits, xs: Items) returns (saved: Bits, vs: seq<int>)
    requires b.Valid() && AllFit(xs) && b.Pos() + Before(xs, Count(xs)) <= b.Buffer().Size()
    modifies b, b.data
    ensures b.Valid() && saved.Valid() && saved.Buffer() == b.Buffer() && saved.Pos() == b.Pos()
    ensures AllExact(xs) ==> vs == Values(xs)
  {
    saved := new Bits(b.data, b.end, b.wide);
    saved.p, saved.left := b.p, b.left;
    PutAll(b, xs);
    vs := ReadKinds(saved, Kinds(xs), xs, b.Pos());
  }
}
