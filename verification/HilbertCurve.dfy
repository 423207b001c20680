/** The Hilbert curve, order by order: a Gray-code walk over cells picked by the top bits, with
    a twisted curve of the order below inside each cell. The iterative algorithm computes it. */
module HilbertCurve {
  import opened Hilbert

  // ---- words and corners ----

  function Not(w: Word): (c: Word)
    ensures |c| == |w| && forall k :: 0 <= k < |w| ==> c[k] == !w[k]
  {
    seq(|w|, k requires 0 <= k < |w| => !w[k])
  }

  /** Words with one more bit on top. */
  function Join(y: seq<Word>, g: Word, r: nat, p: nat): (x: seq<Word>)
    requires Shaped(y, r, p) && |g| == r
    ensures Shaped(x, r, p + 1)
    ensures forall i :: 0 <= i < r ==> x[i] == y[i] + [g[i]]
  {
    seq(r, i requires 0 <= i < r => y[i] + [g[i]])
  }

  // ---- the top bits ----

  /** The cell a digit of the index stands for: its Gray code, first coordinate first. */
  function Cell(digit: Word, r: nat): (g: Word)
    requires |digit| == r
    ensures |g| == r
    ensures forall i :: 0 <= i < r ==> g[i] == (digit[r - 1 - i] != (i > 0 && digit[r - i]))
  {
    seq(r, i requires 0 <= i < r => digit[r - 1 - i] != (i > 0 && digit[r - i]))
  }

  function Reverse(w: Word): (c: Word)
    ensures |c| == |w| && forall k :: 0 <= k < |w| ==> c[k] == w[|w| - 1 - k]
  {
    seq(|w|, k requires 0 <= k < |w| => w[|w| - 1 - k])
  }

  // ---- one level of the inverse mapping ----

  /** What the last round does to the lower bits: invert the first word or exchange it. */
  function LowStep(y: seq<Word>, g: Word, r: nat, p: nat, i: nat): (z: seq<Word>)
    requires Shaped(y, r, p) && |g| == r && i < r
    ensures Shaped(z, r, p)
  {
    if g[i] then y[0 := Not(y[0])] else y[0 := y[i]][i := y[0]]
  }

  ghost function Twist(y: seq<Word>, g: Word, r: nat, p: nat, n: nat): (z: seq<Word>)
    requires Shaped(y, r, p) && |g| == r && n <= r
    ensures Shaped(z, r, p)
    decreases n
  {
    if n == 0 then y else Twist(LowStep(y, g, r, p, n - 1), g, r, p, n - 1)
  }

  lemma StepBelowTop(y: seq<Word>, g: Word, r: nat, p: nat, j: nat, i: nat)
    requires Shaped(y, r, p) && |g| == r && i < r && j < p
    ensures Step(Join(y, g, r, p), r, p + 1, j, i) == Join(Step(y, r, p, j, i), g, r, p)
  {
    var x := Join(y, g, r, p);
    assert x[i][j] == y[i][j];
    var a, b := Step(x, r, p + 1, j, i), Join(Step(y, r, p, j, i), g, r, p);
    forall k | 0 <= k < r
      ensures a[k] == b[k]
    {
      assert |a[k]| == |b[k]|;
      forall m | 0 <= m < p + 1
        ensures a[k][m] == b[k][m]
      {
      }
    }
  }

  lemma StepAtTop(y: seq<Word>, g: Word, r: nat, p: nat, i: nat)
    requires Shaped(y, r, p) && |g| == r && i < r
    ensures Step(Join(y, g, r, p), r, p + 1, p, i) == Join(LowStep(y, g, r, p, i), g, r, p)
  {
    var x := Join(y, g, r, p);
    assert x[i][p] == g[i];
    var a, b := Step(x, r, p + 1, p, i), Join(LowStep(y, g, r, p, i), g, r, p);
    forall k | 0 <= k < r
      ensures a[k] == b[k]
    {
      assert |a[k]| == |b[k]|;
      forall m | 0 <= m < p + 1
        ensures a[k][m] == b[k][m]
      {
      }
    }
  }

  lemma {:induction false} DownBelowTop(y: seq<Word>, g: Word, r: nat, p: nat, j: nat, n: nat)
    requires Shaped(y, r, p) && |g| == r && n <= r && j < p
    ensures Down(Join(y, g, r, p), r, p + 1, j, n) == Join(Down(y, r, p, j, n), g, r, p)
    decreases n
  {
    if n > 0 {
      StepBelowTop(y, g, r, p, j, n - 1);
      DownBelowTop(Step(y, r, p, j, n - 1), g, r, p, j, n - 1);
    }
  }

  lemma {:induction false} DownAtTop(y: seq<Word>, g: Word, r: nat, p: nat, n: nat)
    requires Shaped(y, r, p) && |g| == r && n <= r
    ensures Down(Join(y, g, r, p), r, p + 1, p, n) == Join(Twist(y, g, r, p, n), g, r, p)
    decreases n
  {
    if n > 0 {
      StepAtTop(y, g, r, p, n - 1);
      DownAtTop(LowStep(y, g, r, p, n - 1), g, r, p, n - 1);
    }
  }

  /** The rounds of order `p + 1` are those of order `p` on the lower bits, then the twist. */
  lemma {:induction false} UnroundsSplit(y: seq<Word>, g: Word, r: nat, p: nat, k: nat)
    requires Shaped(y, r, p) && |g| == r && k <= p
    ensures Unrounds(Join(y, g, r, p), r, p + 1, k)
         == Join(Twist(Unrounds(y, r, p, k), g, r, p, r), g, r, p)
    decreases p - k
  {
    if k == p {
      DownAtTop(y, g, r, p, r);
      assert Unrounds(Down(Join(y, g, r, p), r, p + 1, k, r), r, p + 1, k + 1) == Down(Join(y, g, r, p), r, p + 1, k, r);
    } else {
      DownBelowTop(y, g, r, p, k, r);
      UnroundsSplit(Down(y, r, p, k, r), g, r, p, k + 1);
    }
  }

  // ---- decoding one level ----

  function TurnWord(w: Word, turned: bool): (c: Word)
    ensures |c| == |w|
  {
    if turned then Not(w) else w
  }

  function Turn(c: seq<Word>, r: nat, p: nat, turned: bool): (d: seq<Word>)
    requires Shaped(c, r, p)
    ensures Shaped(d, r, p)
    ensures forall i :: 0 <= i < r ==> d[i] == TurnWord(c[i], turned)
  {
    seq(r, i requires 0 <= i < r => TurnWord(c[i], turned))
  }

  lemma XorTurned(a: Word, b: Word, s: bool, t: bool, turned: bool)
    requires |a| == |b|
    ensures Xor(a + [s], b + [t]) == Xor(TurnWord(a, turned), TurnWord(b, turned)) + [s != t]
  {
  }

  /** Shifting brings the top bit of the last word down, where it turns the word below it. */
  lemma ShiftTurned(a: Word, w: Word, s: bool, t: bool)
    requires |a| == |w| && |a| >= 1
    ensures Xor(a + [s], Shift(w + [t])) == Xor(TurnWord(a, t), Shift(TurnWord(w, t))) + [s]
  {
    var p := |a|;
    var u, v := Xor(a + [s], Shift(w + [t])), Xor(TurnWord(a, t), Shift(TurnWord(w, t))) + [s];
    forall m | 0 <= m < p + 1
      ensures u[m] == v[m]
    {
      if m + 1 < p {
        assert (w + [t])[m + 1] == w[m + 1];
      }
    }
  }

  /** A decoded word, from the two words it depends on. */
  function DecodedWord(c: seq<Word>, r: nat, p: nat, i: nat): (w: Word)
    requires Shaped(c, r, p) && i < r
    ensures |w| == p
  {
    if i == 0 then Xor(c[0], Shift(c[r - 1])) else Xor(c[i], c[i - 1])
  }

  lemma DecodedAt(c: seq<Word>, r: nat, p: nat, i: nat)
    requires Shaped(c, r, p) && p >= 1 && i < r
    ensures Decode(c, r, p)[i] == DecodedWord(c, r, p, i)
  {
  }

  lemma DecodedWordSplit(c: seq<Word>, digit: Word, r: nat, p: nat, i: nat)
    requires Shaped(c, r, p) && |digit| == r && p >= 1 && i < r
    ensures DecodedWord(Join(c, Reverse(digit), r, p), r, p + 1, i)
         == DecodedWord(Turn(c, r, p, digit[0]), r, p, i) + [Cell(digit, r)[i]]
  {
    var top := Reverse(digit);
    if i == 0 {
      ShiftTurned(c[0], c[r - 1], top[0], top[r - 1]);
    } else {
      XorTurned(c[i], c[i - 1], top[i], top[i - 1], digit[0]);
    }
  }

  lemma DecodeSplit(c: seq<Word>, digit: Word, r: nat, p: nat)
    requires Shaped(c, r, p) && |digit| == r && r >= 1 && p >= 1
    ensures Decode(Join(c, Reverse(digit), r, p), r, p + 1)
         == Join(Decode(Turn(c, r, p, digit[0]), r, p), Cell(digit, r), r, p)
  {
    var x, t := Join(c, Reverse(digit), r, p), Turn(c, r, p, digit[0]);
    var a, b := Decode(x, r, p + 1), Decode(t, r, p);
    forall i | 0 <= i < r
      ensures a[i] == b[i] + [Cell(digit, r)[i]]
    {
      DecodedWordSplit(c, digit, r, p, i);
      DecodedAt(x, r, p + 1, i);
      DecodedAt(t, r, p, i);
    }
    SameWords(a, Join(b, Cell(digit, r), r, p), r, p + 1);
  }

  lemma SameWords(a: seq<Word>, b: seq<Word>, r: nat, p: nat)
    requires Shaped(a, r, p) && Shaped(b, r, p) && forall i :: 0 <= i < r ==> a[i] == b[i]
    ensures a == b
  {
  }

  // ---- the curve, order by order ----

  /** The index within a cell and the number of the cell. */
  function Inner(h: Word, r: nat, p: nat): (low: Word)
    requires |h| == r * (p + 1) && r >= 1
    ensures |low| == r * p
  {
    LevelSize(r, p + 1);
    TurnWord(h[..r * p], h[r * p])
  }

  function Top(h: Word, r: nat, p: nat): (digit: Word)
    requires |h| == r * (p + 1)
    ensures |digit| == r
  {
    LevelSize(r, p + 1);
    h[r * p..]
  }

  ghost function InCell(y: seq<Word>, g: Word, r: nat, p: nat): (x: seq<Word>)
    requires Shaped(y, r, p) && |g| == r
    ensures Shaped(x, r, p + 1)
  {
    Join(Twist(y, g, r, p, r), g, r, p)
  }

  /** Reference definition of the curve. The top digit of the index picks a cell by its Gray
      code; inside it runs the curve of the order below, backwards in odd cells, and twisted. */
  ghost function Curve(h: Word, r: nat, p: nat): (x: seq<Word>)
    requires |h| == r * p && r >= 1
    ensures Shaped(x, r, p)
    decreases p
  {
    if p == 0 then seq(r, i => []) else
    InCell(Curve(Inner(h, r, p - 1), r, p - 1), Cell(Top(h, r, p - 1), r), r, p - 1)
  }

  lemma LevelSize(r: nat, p: nat)
    requires p >= 1
    ensures r * p == r * (p - 1) + r
  {
  }

  lemma UnpackSplit(h: Word, r: nat, p: nat)
    requires |h| == r * (p + 1) && r >= 1
    ensures r * (p + 1) == r * p + r
    ensures Unpack(h, r, p + 1) == Join(Unpack(h[..r * p], r, p), Reverse(h[r * p..]), r, p)
  {
    LevelSize(r, p + 1);
    var low, digit := h[..r * p], h[r * p..];
    var a, b := Unpack(h, r, p + 1), Join(Unpack(low, r, p), Reverse(digit), r, p);
    forall d | 0 <= d < r
      ensures a[d] == b[d]
    {
      forall m | 0 <= m < p + 1
        ensures a[d][m] == b[d][m]
      {
        PlaceFits(r, p + 1, m, d);
        if m < p {
          PlaceFits(r, p, m, d);
        } else {
          assert Place(r, m, d) == r * p + (r - 1 - d);
        }
      }
    }
  }

  lemma UnpackTurned(h: Word, r: nat, p: nat, turned: bool)
    requires |h| == r * p
    ensures Unpack(TurnWord(h, turned), r, p) == Turn(Unpack(h, r, p), r, p, turned)
  {
    var a, b := Unpack(TurnWord(h, turned), r, p), Turn(Unpack(h, r, p), r, p, turned);
    forall d | 0 <= d < r
      ensures a[d] == b[d]
    {
      forall m | 0 <= m < p
        ensures a[d][m] == b[d][m]
      {
        PlaceFits(r, p, m, d);
      }
    }
  }

  /** The curve of order one is the Gray code alone. */
  lemma FirstDecoded(h: Word, r: nat, i: nat)
    requires |h| == r * 1 && i < r
    ensures DecodedWord(Unpack(h, r, 1), r, 1, i) == [Cell(h, r)[i]]
  {
    forall d | 0 <= d < r
      ensures Unpack(h, r, 1)[d] == [h[r - 1 - d]]
    {
      PlaceFits(r, 1, 0, d);
    }
  }

  lemma FirstInCell(y: seq<Word>, g: Word, r: nat)
    requires Shaped(y, r, 0) && |g| == r
    ensures forall i :: 0 <= i < r ==> InCell(y, g, r, 0)[i] == [g[i]]
  {
  }

  lemma FirstOrder(h: Word, y: seq<Word>, r: nat)
    requires |h| == r * 1 && r >= 1 && Shaped(y, r, 0)
    ensures HilbertToCoords(h, r, 1) == InCell(y, Cell(h, r), r, 0)
  {
    var x := Decode(Unpack(h, r, 1), r, 1);
    FirstInCell(y, Cell(h, r), r);
    forall i | 0 <= i < r
      ensures x[i] == [Cell(h, r)[i]]
    {
      DecodedAt(Unpack(h, r, 1), r, 1, i);
      FirstDecoded(h, r, i);
    }
    SameWords(x, InCell(y, Cell(h, r), r, 0), r, 1);
  }

  /** One order of the iterative algorithm. */
  lemma CoordsSplit(h: Word, r: nat, p: nat)
    requires |h| == r * (p + 1) && r >= 1 && p >= 1
    ensures HilbertToCoords(h, r, p + 1)
         == InCell(HilbertToCoords(Inner(h, r, p), r, p), Cell(Top(h, r, p), r), r, p)
  {
    UnpackSplit(h, r, p);
    var low, digit := h[..r * p], Top(h, r, p);
    DecodeSplit(Unpack(low, r, p), digit, r, p);
    UnpackTurned(low, r, p, digit[0]);
    UnroundsSplit(Decode(Unpack(Inner(h, r, p), r, p), r, p), Cell(digit, r), r, p, 1);
  }

  lemma CurveUnfolds(h: Word, r: nat, p: nat)
    requires |h| == r * (p + 1) && r >= 1
    ensures Curve(h, r, p + 1) == InCell(Curve(Inner(h, r, p), r, p), Cell(Top(h, r, p), r), r, p)
  {
  }

  /** The iterative algorithm computes the recursively defined curve. */
  lemma {:induction false} CoordsAreCurve(h: Word, r: nat, p: nat)
    requires |h| == r * p && r >= 1 && p >= 1
    ensures HilbertToCoords(h, r, p) == Curve(h, r, p)
    decreases p
  {
    var q: nat := p - 1;
    CurveUnfolds(h, r, q);
    if q == 0 {
      assert Top(h, r, 0) == h;
      FirstOrder(h, Curve(Inner(h, r, 0), r, 0), r);
    } else {
      CoordsSplit(h, r, q);
      CoordsAreCurve(Inner(h, r, q), r, q);
    }
  }
}
