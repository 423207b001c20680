/** The Hilbert layout over numbers: offsets and neighbours in a tensor whose every side is
    `2^order`, and the loops that compute an offset, for any shape. */
module HilbertLayout {
  import opened Shapes
  import opened Boxes
  import opened Packing
  import opened RowMajor
  import opened Hilbert
  import opened HilbertCurve
  import opened HilbertLocality

  // ---- numbers and their bits ----

  function Num(w: Word): (v: nat)
    ensures v < Pow(2, |w|)
  {
    if w == [] then 0 else (if w[0] then 1 else 0) + 2 * Num(w[1..])
  }

  function Bits(v: nat, p: nat): (w: Word)
    ensures |w| == p
  {
    if p == 0 then [] else [v % 2 == 1] + Bits(v / 2, p - 1)
  }

  lemma {:induction false} NumOfBits(v: nat, p: nat)
    requires v < Pow(2, p)
    ensures Num(Bits(v, p)) == v
  {
    if p > 0 {
      NumOfBits(v / 2, p - 1);
      assert Bits(v, p)[1..] == Bits(v / 2, p - 1);
    }
  }

  lemma {:induction false} BitsOfNum(w: Word)
    ensures Bits(Num(w), |w|) == w
  {
    if w != [] {
      BitsOfNum(w[1..]);
      assert Num(w) / 2 == Num(w[1..]);
    }
  }

  lemma {:induction false} SuccNum(a: Word, b: Word, n: nat)
    requires SuccAt(a, b, n)
    ensures Num(b) == Num(a) + 1
  {
    if n == 0 {
      assert a[1..] == b[1..];
    } else {
      assert a[0] && !b[0];
      SuccNum(a[1..], b[1..], n - 1);
    }
  }

  /** Words that count up by one differ as carrying makes them. */
  lemma {:induction false} NumSucc(a: Word, b: Word) returns (n: nat)
    requires |a| == |b| && Num(b) == Num(a) + 1
    ensures SuccAt(a, b, n)
  {
    if a[0] {
      assert !b[0];
      var m := NumSucc(a[1..], b[1..]);
      n := m + 1;
      forall k | 0 <= k < |a| && k != n
        ensures if k < n then a[k] && !b[k] else a[k] == b[k]
      {
        if k > 0 { assert a[k] == a[1..][k - 1] && b[k] == b[1..][k - 1]; }
      }
    } else {
      assert b[0];
      BitsOfNum(a[1..]);
      BitsOfNum(b[1..]);
      assert a == [false] + a[1..] && b == [true] + b[1..];
      n := 0;
    }
  }

  // ---- offsets and points ----

  function Words(index: seq<nat>, p: nat): (x: seq<Word>)
    ensures |x| == |index| && forall i :: 0 <= i < |x| ==> x[i] == Bits(index[i], p)
  {
    seq(|index|, i requires 0 <= i < |index| => Bits(index[i], p))
  }

  function Numbers(x: seq<Word>): (index: seq<nat>)
    ensures |index| == |x| && forall i :: 0 <= i < |x| ==> index[i] == Num(x[i])
  {
    seq(|x|, i requires 0 <= i < |x| => Num(x[i]))
  }

  /** The sides of the tensor. */
  function Sides(r: nat, p: nat): (dims: seq<nat>)
    ensures |dims| == r && forall k :: 0 <= k < r ==> dims[k] == Pow(2, p)
  {
    seq(r, k => Pow(2, p))
  }

  ghost function CurveOffset(index: seq<nat>, p: nat): (h: nat)
    requires |index| >= 1 && p >= 1
    ensures h < Pow(2, |index| * p)
  {
    Num(CoordsToHilbert(Words(index, p), |index|, p))
  }

  ghost function CurvePoint(h: nat, r: nat, p: nat): (index: seq<nat>)
    requires r >= 1 && p >= 1
    ensures IsCell(index, Sides(r, p))
  {
    Numbers(HilbertToCoords(Bits(h, r * p), r, p))
  }

  lemma NumbersOfWords(index: seq<nat>, p: nat)
    requires IsCell(index, Sides(|index|, p))
    ensures Numbers(Words(index, p)) == index
  {
    forall i | 0 <= i < |index|
      ensures Numbers(Words(index, p))[i] == index[i]
    {
      NumOfBits(index[i], p);
    }
  }

  lemma WordsOfNumbers(x: seq<Word>, r: nat, p: nat)
    requires Shaped(x, r, p)
    ensures Words(Numbers(x), p) == x
  {
    forall i | 0 <= i < r
      ensures Words(Numbers(x), p)[i] == x[i]
    {
      BitsOfNum(x[i]);
    }
  }

  /** Every element has its own offset, below the element count. */
  lemma PointOfOffset(index: seq<nat>, r: nat, p: nat)
    requires r >= 1 && p >= 1 && IsCell(index, Sides(r, p))
    ensures |index| == r && CurveOffset(index, p) < Pow(2, r * p)
    ensures CurvePoint(CurveOffset(index, p), r, p) == index
  {
    var x := Words(index, p);
    NumbersOfWords(index, p);
    BitsOfNum(CoordsToHilbert(x, r, p));
    HilbertRoundTrip(x, r, p);
  }

  /** Every offset below the element count is used. */
  lemma OffsetOfPoint(h: nat, r: nat, p: nat)
    requires r >= 1 && p >= 1 && h < Pow(2, r * p)
    ensures CurveOffset(CurvePoint(h, r, p), p) == h
  {
    var w := Bits(h, r * p);
    WordsOfNumbers(HilbertToCoords(w, r, p), r, p);
    HilbertOnto(w, r, p);
    NumOfBits(h, r * p);
  }

  /** One coordinate differs, by one. */
  ghost predicate Adjacent(x: seq<nat>, y: seq<nat>) {
    && |x| == |y|
    && exists d :: 0 <= d < |x| && (x[d] == y[d] + 1 || y[d] == x[d] + 1)
                   && forall i :: 0 <= i < |x| && i != d ==> x[i] == y[i]
  }

  lemma NextIsAdjacent(x: seq<Word>, y: seq<Word>)
    requires Next(x, y)
    ensures Adjacent(Numbers(x), Numbers(y))
  {
    var d: nat, n: nat, up: bool :| Moves(x, y, d, n, up);
    if up { SuccNum(x[d], y[d], n); } else { SuccNum(y[d], x[d], n); }
    var a, b := Numbers(x), Numbers(y);
    assert a[d] == b[d] + 1 || b[d] == a[d] + 1;
  }

  /** Locality, for every rank and order: consecutive offsets hold neighbouring elements. */
  lemma ConsecutiveAreAdjacent(h: nat, r: nat, p: nat)
    requires r >= 1 && p >= 1 && h + 1 < Pow(2, r * p)
    ensures Adjacent(CurvePoint(h, r, p), CurvePoint(h + 1, r, p))
  {
    var a, b := Bits(h, r * p), Bits(h + 1, r * p);
    NumOfBits(h, r * p);
    NumOfBits(h + 1, r * p);
    var n := NumSucc(a, b);
    CurveLocal(a, b, n, r, p);
    CoordsAreCurve(a, r, p);
    CoordsAreCurve(b, r, p);
    NextIsAdjacent(HilbertToCoords(a, r, p), HilbertToCoords(b, r, p));
  }

  lemma PointAt(index: seq<nat>, h: nat, r: nat, p: nat)
    requires r >= 1 && p >= 1 && IsCell(index, Sides(r, p)) && CurveOffset(index, p) == h
    ensures h < Pow(2, r * p) && CurvePoint(h, r, p) == index
  {
    PointOfOffset(index, r, p);
  }

  /** The same, told of elements. */
  lemma NeighboursInMemory(x: seq<nat>, y: seq<nat>, h: nat, r: nat, p: nat)
    requires r >= 1 && p >= 1 && IsCell(x, Sides(r, p)) && IsCell(y, Sides(r, p))
    requires CurveOffset(x, p) == h && CurveOffset(y, p) == h + 1
    ensures Adjacent(x, y)
  {
    PointAt(x, h, r, p);
    PointAt(y, h + 1, r, p);
    ConsecutiveAreAdjacent(h, r, p);
  }

  // ---- which of the symmetric curves ----

  lemma {:induction false} BitAt(v: nat, p: nat, k: nat)
    requires k < p
    ensures Bits(v, p)[k] <==> Digit(v, 2, k) == 1
  {
    PowPositive(2, k);
    if k > 0 {
      BitAt(v / 2, p - 1, k - 1);
      PowPositive(2, k - 1);
      DivDiv(v, 2, Pow(2, k - 1));
      assert Bits(v, p)[k] == Bits(v / 2, p - 1)[k - 1];
    }
  }

  lemma {:induction false} TopOfNum(w: Word)
    requires |w| >= 1
    ensures Pow(2, |w| - 1) > 0 && Num(w) / Pow(2, |w| - 1) == if w[|w| - 1] then 1 else 0
  {
    PowPositive(2, |w| - 1);
    if |w| > 1 {
      PowPositive(2, |w| - 2);
      TopOfNum(w[1..]);
      DivDiv(Num(w), 2, Pow(2, |w| - 2));
      assert Num(w) / 2 == Num(w[1..]);
    }
  }

  lemma DigitAbove(v: nat, low: nat, k: nat)
    ensures Pow(2, low) > 0 && Digit(v / Pow(2, low), 2, k) == Digit(v, 2, low + k)
  {
    PowPositive(2, low);
    PowPositive(2, k);
    PowAdd(2, low, k);
    DivDiv(v, Pow(2, low), Pow(2, k));
  }

  lemma DigitBeyond(v: nat, k: nat)
    requires v < Pow(2, k)
    ensures Digit(v, 2, k) == 0
  {
    hide Pow;
    DivUnique(v, Pow(2, k), 0, v);
  }

  /** The number of the cell an offset lies in, one level below order `p + 1`. */
  ghost function CellNumber(h: nat, r: nat, p: nat): nat {
    PowPositive(2, r * p);
    h / Pow(2, r * p)
  }

  /** Bit `k` of the exclusive-or of `g` and `g / 2`. */
  ghost predicate GrayBit(g: nat, k: nat) {
    Digit(g, 2, k) != Digit(g, 2, k + 1)
  }

  lemma TopDigit(h: nat, r: nat, p: nat, k: nat)
    requires r >= 1 && k < r
    ensures Top(Bits(h, r * (p + 1)), r, p)[k] <==> Digit(CellNumber(h, r, p), 2, k) == 1
  {
    LevelSize(r, p + 1);
    DigitAbove(h, r * p, k);
    BitAt(h, r * (p + 1), r * p + k);
  }

  lemma NoDigitAbove(h: nat, r: nat, p: nat)
    requires h < Pow(2, r * (p + 1))
    ensures Digit(CellNumber(h, r, p), 2, r) == 0
  {
    hide Pow, Digit;
    LevelSize(r, p + 1);
    DigitAbove(h, r * p, r);
    DigitBeyond(h, r * p + r);
  }

  lemma DigitIsBit(v: nat, k: nat)
    ensures Digit(v, 2, k) == 0 || Digit(v, 2, k) == 1
  {
  }

  lemma CellIsGray(h: nat, r: nat, p: nat, d: nat)
    requires r >= 1 && d < r && h < Pow(2, r * (p + 1))
    ensures Cell(Top(Bits(h, r * (p + 1)), r, p), r)[d] <==> GrayBit(CellNumber(h, r, p), r - 1 - d)
  {
    hide Digit, CellNumber, Top, Bits;
    TopDigit(h, r, p, r - 1 - d);
    DigitIsBit(CellNumber(h, r, p), r - 1 - d);
    DigitIsBit(CellNumber(h, r, p), r - d);
    if d > 0 { TopDigit(h, r, p, r - d); } else { NoDigitAbove(h, r, p); }
  }

  /** Where an offset lies, in numbers: the top bit of coordinate `d` is bit `r - 1 - d` of the Gray
      code of the offset's upper `r` bits. */
  lemma TopBits(h: nat, r: nat, p: nat, d: nat)
    requires r >= 1 && d < r && h < Pow(2, r * (p + 1))
    ensures Pow(2, p) > 0
    ensures CurvePoint(h, r, p + 1)[d] / Pow(2, p) == if GrayBit(CellNumber(h, r, p), r - 1 - d) then 1 else 0
  {
    hide GrayBit, CellNumber, Top, Cell, Curve;
    var w := Bits(h, r * (p + 1));
    var x := HilbertToCoords(w, r, p + 1);
    CoordsAreCurve(w, r, p + 1);
    CurveUnfolds(w, r, p);
    assert x[d][p] == Cell(Top(w, r, p), r)[d];
    TopOfNum(x[d]);
    CellIsGray(h, r, p, d);
  }

  lemma {:induction false} NumOfFill(bit: bool, p: nat)
    ensures Num(Fill(bit, p)) == if bit then Pow(2, p) - 1 else 0
  {
    if p > 0 {
      assert Fill(bit, p)[1..] == Fill(bit, p - 1);
      NumOfFill(bit, p - 1);
    }
  }

  /** A corner of the curve, and the index of filled bits, as numbers. */
  lemma CornerNumbers(bit: bool, r: nat, p: nat)
    requires r >= 1
    ensures Pow(2, p) >= 1 && Pow(2, r * p) >= 1
    ensures Bits(if bit then Pow(2, r * p) - 1 else 0, r * p) == Fill(bit, r * p)
    ensures Numbers(Corner(bit, r, p)) == seq(r, _ => 0)[0 := if bit then Pow(2, p) - 1 else 0]
  {
    PowPositive(2, p);
    PowPositive(2, r * p);
    NumOfFill(false, p);
    NumOfFill(bit, p);
    NumOfFill(bit, r * p);
    BitsOfNum(Fill(bit, r * p));
  }

  /** The first offset is that of the origin; the last one that of the element at the far end of the
      first coordinate. */
  lemma FirstAndLast(r: nat, p: nat)
    requires r >= 1 && p >= 1
    ensures Pow(2, r * p) >= 1
    ensures CurvePoint(0, r, p) == seq(r, _ => 0)
    ensures CurvePoint(Pow(2, r * p) - 1, r, p) == seq(r, _ => 0)[0 := Pow(2, p) - 1]
  {
    PowPositive(2, r * p);
    PowPositive(2, p);
    CornerNumbers(false, r, p);
    CornerNumbers(true, r, p);
    CurveStart(r, p);
    CurveEnd(r, p);
    CoordsAreCurve(Fill(false, r * p), r, p);
    CoordsAreCurve(Fill(true, r * p), r, p);
    assert seq(r, _ => 0)[0 := 0] == seq(r, _ => 0);
  }

  // ---- offsets of any shape ----

  /** Only the low `p` bits of a number count. */
  lemma {:induction false} BitsOfPower(p: nat)
    ensures Bits(Pow(2, p), p) == Bits(0, p)
  {
    if p > 0 {
      assert Pow(2, p) == 2 * Pow(2, p - 1);
      BitsOfPower(p - 1);
    }
  }

  /** No two elements of the shape have the same offset in a layout of rank `r` and order `p`. */
  ghost predicate OffsetsDistinct(dims: seq<nat>, r: nat, p: nat)
    requires 1 <= r <= |dims| && p >= 1
  {
    forall x: Index, y: Index ::
      IsCell(x, dims) && IsCell(y, dims) && CurveOffset(x[..r], p) == CurveOffset(y[..r], p) ==> x == y
  }

  /** How long side `k` may be: the sides after the layout's rank do not count in an offset. */
  function LongestSide(r: nat, p: nat, k: nat): nat {
    if k < r then Pow(2, p) else 1
  }

  lemma WithinSides(x: Index, dims: seq<nat>, r: nat, p: nat)
    requires r <= |dims| && IsCell(x, dims) && forall k :: 0 <= k < |dims| ==> dims[k] <= LongestSide(r, p, k)
    ensures IsCell(x[..r], Sides(r, p)) && forall k :: r <= k < |x| ==> x[k] == 0
  {
    assert forall k :: 0 <= k < |dims| ==> x[k] < dims[k] <= LongestSide(r, p, k);
  }

  /** The origin and a point along a side that is too long share an offset. */
  lemma SideTooLong(dims: seq<nat>, r: nat, p: nat, k: nat) returns (x: Index, y: Index)
    requires 1 <= r <= |dims| && p >= 1 && 0 !in dims && k < |dims| && dims[k] > LongestSide(r, p, k)
    ensures IsCell(x, dims) && IsCell(y, dims) && x != y && CurveOffset(x[..r], p) == CurveOffset(y[..r], p)
  {
    x := seq(|dims|, _ => 0);
    y := x[k := LongestSide(r, p, k)];
    PowPositive(2, p);
    assert x[k] != y[k];
    if k < r {
      BitsOfPower(p);
      assert Words(x[..r], p) == Words(y[..r], p);
    } else {
      assert x[..r] == y[..r];
    }
  }

  /** A layout used with any shape that has elements and at least its rank: no two elements share an
      offset if and only if no side within the rank is longer than `2^p` and every other is one. */
  lemma OffsetsDistinctIff(dims: seq<nat>, r: nat, p: nat)
    requires 1 <= r <= |dims| && p >= 1 && 0 !in dims
    ensures OffsetsDistinct(dims, r, p) <==> forall k :: 0 <= k < |dims| ==> dims[k] <= LongestSide(r, p, k)
  {
    if forall k :: 0 <= k < |dims| ==> dims[k] <= LongestSide(r, p, k) {
      forall x: Index, y: Index | IsCell(x, dims) && IsCell(y, dims) && CurveOffset(x[..r], p) == CurveOffset(y[..r], p)
        ensures x == y
      {
        WithinSides(x, dims, r, p);
        WithinSides(y, dims, r, p);
        PointOfOffset(x[..r], r, p);
        PointOfOffset(y[..r], r, p);
        assert forall k :: 0 <= k < r ==> x[k] == x[..r][k] && y[k] == y[..r][k];
      }
    } else {
      var k :| 0 <= k < |dims| && dims[k] > LongestSide(r, p, k);
      var x, y := SideTooLong(dims, r, p, k);
    }
  }

  /** Two elements of a shape of higher rank, one offset, although every side is short enough. */
  lemma ExtraDimensionShares()
    ensures var dims := [4, 4, 2];
            && IsCell([0, 0, 0], dims) && IsCell([0, 0, 1], dims)
            && CurveOffset([0, 0, 0][..2], 2) == CurveOffset([0, 0, 1][..2], 2)
  {
    assert [0, 0, 0][..2] == [0, 0] && [0, 0, 1][..2] == [0, 0];
  }

  // ---- the loops ----

  /** At least `r` words, all of `w` bits. */
  ghost predicate Wide(x: seq<Word>, r: nat, w: nat) {
    r <= |x| && forall i :: 0 <= i < |x| ==> |x[i]| == w
  }

  /** The low `p` bits of the first `r` words. */
  ghost function Lows(x: seq<Word>, r: nat, p: nat, w: nat): (y: seq<Word>)
    requires Wide(x, r, w) && p <= w
    ensures Shaped(y, r, p)
    ensures forall i :: 0 <= i < r ==> y[i] == x[i][..p]
  {
    seq(r, i requires 0 <= i < r => x[i][..p])
  }

  lemma LowXor(a: Word, b: Word, p: nat)
    requires |a| == |b| && p <= |a|
    ensures Xor(a, b)[..p] == Xor(a[..p], b[..p])
  {
  }

  lemma LowOfLowBits(v: Word, j: nat, p: nat)
    requires p <= |v|
    ensures LowBits(v, j)[..p] == LowBits(v[..p], j) && Ones(|v|, j)[..p] == Ones(p, j)
  {
  }

  /** The rounds, from the highest bit of the order down. Words may be wider than the order and
      coordinates more than the rank: what lies above or after is carried along. */
  method Transform(x: array<Word>, r: nat, p: nat, ghost w: nat)
    requires 1 <= p <= w && Wide(x[..], r, w)
    modifies x
    ensures Wide(x[..], r, w) && Wide(old(x[..]), r, w)
    ensures Lows(x[..], r, p, w) == Rounds(Lows(old(x[..]), r, p, w), r, p, 1)
  {
    ghost var was := Lows(x[..], r, p, w);
    var j := p - 1;
    while j > 0
      invariant j < p && Wide(x[..], r, w)
      invariant Lows(x[..], r, p, w) == Rounds(was, r, p, j + 1)
    {
      ghost var before := Lows(x[..], r, p, w);
      for i := 0 to r
        invariant Wide(x[..], r, w)
        invariant Lows(x[..], r, p, w) == Up(before, r, p, j, i)
      {
        TransformStep(x, r, p, j, i, w);
      }
      j := j - 1;
    }
  }

  method TransformStep(x: array<Word>, r: nat, p: nat, j: nat, i: nat, ghost w: nat)
    requires j < p <= w && i < r && Wide(x[..], r, w)
    modifies x
    ensures Wide(x[..], r, w) && Wide(old(x[..]), r, w)
    ensures Lows(x[..], r, p, w) == Step(Lows(old(x[..]), r, p, w), r, p, j, i)
  {
    ghost var was := x[..];
    assert forall k :: 0 <= k < x.Length ==> x[k] == was[k];
    ghost var low := Lows(was, r, p, w);
    if x[i][j] {
      assert low[i][j];
      LowOfLowBits(x[0], j, p);
      LowXor(x[0], Ones(|x[0]|, j), p);
      x[0] := Xor(x[0], Ones(|x[0]|, j));
    } else {
      assert !low[i][j];
      var t := LowBits(Xor(x[0], x[i]), j);
      LowXor(x[0], x[i], p);
      LowOfLowBits(Xor(x[0], x[i]), j, p);
      LowXor(x[0], t, p);
      x[0] := Xor(x[0], t);
      LowXor(x[i], t, p);
      x[i] := Xor(x[i], t);
    }
    assert Lows(x[..], r, p, w) == Step(low, r, p, j, i);
  }

  /** The running exclusive-or, in place. */
  method RunningXor(x: array<Word>, r: nat, p: nat, ghost w: nat)
    requires 1 <= r && 1 <= p <= w && Wide(x[..], r, w)
    modifies x
    ensures Wide(x[..], r, w) && Wide(old(x[..]), r, w)
    ensures Lows(x[..], r, p, w) == Running(Lows(old(x[..]), r, p, w), r, p, r)
  {
    ghost var was := Lows(x[..], r, p, w);
    for i := 1 to r
      invariant Wide(x[..], r, w)
      invariant Lows(x[..], r, p, w) == Running(was, r, p, i)
    {
      ghost var before := x[..];
      assert x[i] == before[i] && x[i - 1] == before[i - 1];
      LowXor(x[i], x[i - 1], p);
      x[i] := Xor(x[i], x[i - 1]);
      assert Lows(x[..], r, p, w) == Lows(before, r, p, w)[i := Xor(before[i][..p], before[i - 1][..p])];
    }
  }

  /** The running exclusive-or, the mask of the last coordinate, and its application. */
  method GrayCode(x: array<Word>, r: nat, p: nat, ghost w: nat)
    requires 1 <= r && 1 <= p <= w && Wide(x[..], r, w)
    modifies x
    ensures Wide(x[..], r, w) && Wide(old(x[..]), r, w)
    ensures Lows(x[..], r, p, w) == Encode(Lows(old(x[..]), r, p, w), r, p)
  {
    RunningXor(x, r, p, w);
    ghost var b := x[..];
    assert x[r - 1] == b[r - 1];
    var t := MaskOf(x[r - 1], p);
    for i := 0 to r
      invariant Wide(x[..], r, w)
      invariant forall k :: 0 <= k < i ==> x[k] == Xor(b[k], t)
      invariant forall k :: i <= k < r ==> x[k] == b[k]
    {
      x[i] := Xor(x[i], t);
    }
    ghost var low := Lows(b, r, p, w);
    forall k | 0 <= k < r
      ensures x[k][..p] == Xor(low[k], t[..p])
    {
      LowXor(b[k], t, p);
    }
    assert Lows(x[..], r, p, w) == XorAll(low, r, p, t[..p]);
  }

  method MaskOf(v: Word, p: nat) returns (t: Word)
    requires 1 <= p <= |v|
    ensures |t| == |v| && t[..p] == Mask(v[..p], 1)
  {
    t := Ones(|v|, 0);
    LowOfLowBits(v, 0, p);
    var j := p - 1;
    while j > 0
      invariant 0 <= j < p && |t| == |v|
      invariant t[..p] == Mask(v[..p], j + 1)
    {
      if v[j] {
        LowOfLowBits(v, j, p);
        LowXor(t, Ones(|v|, j), p);
        t := Xor(t, Ones(|v|, j));
      }
      j := j - 1;
    }
  }

  /** The packing loop: one bit at a time into an index that starts at zero. */
  method PackBits(x: seq<Word>, r: nat, p: nat, ghost w: nat) returns (h: Word)
    requires r >= 1 && p <= w && Wide(x, r, w)
    ensures h == Pack(Lows(x, r, p, w), r, p)
  {
    ghost var low := Lows(x, r, p, w);
    h := Ones(r * p, 0);
    for b := 0 to p
      invariant |h| == r * p
      invariant forall k :: 0 <= k < r * p ==> h[k] == (k < r * b && PackedBit(low, r, p, k))
    {
      for d := 0 to r
        invariant |h| == r * p
        invariant forall k :: 0 <= k < r * p ==>
                    h[k] == ((k < r * b || (k < r * b + r && k >= r * b + (r - d))) && PackedBit(low, r, p, k))
      {
        PlaceFits(r, p, b, d);
        var shift := Place(r, b, d);
        assert low[d][b] == x[d][b];
        h := h[shift := h[shift] || x[d][b]];
      }
      assert r * (b + 1) == r * b + r;
    }
  }

  const WORD_BITS: nat := 64

  lemma {:induction false} LowBitsOf(v: nat, p: nat, w: nat)
    requires p <= w
    ensures Bits(v, w)[..p] == Bits(v, p)
  {
    if p > 0 { LowBitsOf(v / 2, p - 1, w - 1); }
  }

  lemma LowsOfWords(index: seq<nat>, r: nat, p: nat, w: nat)
    requires r <= |index| && p <= w
    ensures Lows(Words(index, w), r, p, w) == Words(index[..r], p)
  {
    forall i | 0 <= i < r
      ensures Words(index, w)[i][..p] == Words(index[..r], p)[i]
    {
      LowBitsOf(index[i], p, w);
    }
  }

  lemma OrderFits(rank: nat, order: nat)
    requires rank >= 1 && rank * order <= WORD_BITS
    ensures order <= WORD_BITS
  {
    MulMonotone(1, rank, order, order);
  }

  /** The offset of an element, for a layout and a shape that need not belong together: the first
      `rank` coordinates count, with their low `order` bits. A valid index must have that many
      coordinates, since the loops would otherwise read past its end. */
  method ElementOffset(index: seq<U64>, dims: seq<U64>, order: nat, rank: nat) returns (a: Address)
    requires order >= 1 && rank >= 2
    requires IsCell(index, dims) && DYNAMIC !in dims && rank * order <= WORD_BITS ==> rank <= |dims|
    ensures a.At? <==> IsCell(index, dims) && DYNAMIC !in dims && rank * order <= WORD_BITS
    ensures a.At? ==> a.offset == CurveOffset(index[..rank], order)
    ensures a == Rejected(Overflow) <==> IsCell(index, dims) && DYNAMIC !in dims && rank * order > WORD_BITS
    ensures a.Rejected? && a.error != Overflow ==> Misses(index, dims, a.error)
  {
    var invalid := ValidateIndex(index, dims);
    if invalid.Some? {
      return Rejected(invalid.value);
    }
    if rank * order > WORD_BITS {
      return Rejected(Overflow);
    }
    OrderFits(rank, order);
    var words := Words(index, WORD_BITS);
    var x := new Word[|index|](i requires 0 <= i < |index| => words[i]);
    assert x[..] == words;
    LowsOfWords(index, rank, order, WORD_BITS);
    Transform(x, rank, order, WORD_BITS);
    GrayCode(x, rank, order, WORD_BITS);
    var h := PackBits(x[..], rank, order, WORD_BITS);
    WordFits(h);
    return At(Num(h));
  }

  /** With a shape it is bound to, the layout's offset is that of the whole index, a cell of the
      curve. */
  lemma BoundOffset(index: seq<U64>, dims: seq<U64>, order: nat)
    requires |dims| >= 2 && order >= 1 && IsCell(index, dims) && dims == Sides(|dims|, order)
    ensures index[..|dims|] == index && CurvePoint(CurveOffset(index[..|dims|], order), |dims|, order) == index
  {
    PointOfOffset(index, |dims|, order);
  }

  lemma WordFits(h: Word)
    requires |h| <= 64
    ensures Num(h) < U64_LIMIT
  {
    PowGrows(|h|, 64);
    Pow64();
  }

  lemma PowGrows(a: nat, b: nat)
    requires a <= b
    ensures Pow(2, a) <= Pow(2, b)
    decreases b - a
  {
    if a < b { PowGrows(a, b - 1); }
  }
}
