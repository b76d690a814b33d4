/** The bits of syntax elements, and what is read off the first of them. */
module ItemBits {
  import opened BitOps
  import opened BitCursor
  import opened ExpGolomb

  /** The bits of the code word of v. */
  ghost predicate WordBit(v: nat, j: nat)
    requires j <= 2 * Prefix(v + 1)
  {
    var z := Prefix(v + 1);
    if j < z then false else j == z || Bit(Suffix(v + 1), 2 * z - j)
  }

  ghost predicate ItemBit(x: Item, j: nat)
    requires j < Length(x)
  {
    match x
    case U(n, v) => Bit(v, n - 1 - j)
    case Ue(v) => WordBit(v, j)
    case Se(v) => WordBit(CodeNum(v), j)
  }

  function Total(xs: Items): nat {
    match xs
    case End => 0
    case Then(x, rest) => Length(x) + Total(rest)
  }

  ghost predicate BitAt(xs: Items, j: nat)
    requires j < Total(xs)
  {
    if j < Length(xs.item) then ItemBit(xs.item, j) else BitAt(xs.rest, j - Length(xs.item))
  }

  lemma WordHere(s: Stream, i: nat, v: nat, j: nat)
    requires UeHere(s, i, v) && j <= 2 * Prefix(v + 1)
    ensures s.At(i + j) <==> WordBit(v, j)
  {
    var z, w := Prefix(v + 1), Suffix(v + 1);
    WordCases(s, i, z, w, j);
  }

  lemma WordCases(s: Stream, i: nat, z: nat, w: nat, j: nat)
    requires CodeWord(s, i, z, w) && j <= 2 * z
    ensures s.At(i + j) <==> if j < z then false else j == z || Bit(w, 2 * z - j)
  {
    if j > z {
      assert z - 1 - (i + j - (i + z + 1)) == 2 * z - j;
    }
  }

  lemma BitHere(s: Stream, i: nat, x: Item, j: nat)
    requires Here(s, i, x) && j < Length(x)
    ensures s.At(i + j) <==> ItemBit(x, j)
  {
    match x {
      case U(n, v) => assert n - 1 - (i + j - i) == n - 1 - j;
      case Ue(v) => WordHere(s, i, v, j);
      case Se(v) => WordHere(s, i, CodeNum(v), j);
    }
  }

  /** Where elements stand, their bits are. */
  lemma {:induction false} BitStands(s: Stream, i: nat, xs: Items, end: nat, j: nat)
    requires Stands(s, i, xs, end) && j < Total(xs)
    ensures s.At(i + j) <==> BitAt(xs, j)
    decreases xs
  {
    StandsFirst(s, i, xs.item, xs.rest, end);
    var n := Length(xs.item);
    if j < n {
      BitHere(s, i, xs.item, j);
    } else {
      BitStands(s, i + n, xs.rest, end, j - n);
    }
  }

  /** The number the first k bits of the elements spell. */
  ghost function FirstBits(xs: Items, k: nat): nat
    requires k <= Total(xs)
  {
    if k == 0 then 0 else 2 * FirstBits(xs, k - 1) + Num(BitAt(xs, k - 1))
  }

  lemma {:induction false} FirstBitsRead(s: Stream, i: nat, xs: Items, end: nat, k: nat)
    requires Stands(s, i, xs, end) && k <= Total(xs)
    ensures s.Value(i, k) == FirstBits(xs, k)
    decreases k
  {
    if k > 0 {
      FirstBitsRead(s, i, xs, end, k - 1);
      BitStands(s, i, xs, end, k - 1);
    }
  }
}
