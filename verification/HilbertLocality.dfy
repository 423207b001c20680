/** Locality of the Hilbert layout: consecutive curve indices are neighbouring elements. */
module HilbertLocality {
  import opened Hilbert
  import opened HilbertCurve

  // ---- counting up by one, in bits ----

  /** `b` follows `a`, and bit `n` is the highest to change. */
  ghost predicate SuccAt(a: Word, b: Word, n: nat) {
    && |a| == |b| && n < |a| && !a[n] && b[n]
    && (forall k :: 0 <= k < n ==> a[k] && !b[k])
    && (forall k :: n < k < |a| ==> a[k] == b[k])
  }

  /** Coordinate `d` moves by one, up or down, and no other coordinate changes. */
  ghost predicate Moves(x: seq<Word>, y: seq<Word>, d: nat, n: nat, up: bool) {
    && |x| == |y| && d < |x|
    && (forall i :: 0 <= i < |x| && i != d ==> x[i] == y[i])
    && if up then SuccAt(x[d], y[d], n) else SuccAt(y[d], x[d], n)
  }

  ghost predicate Next(x: seq<Word>, y: seq<Word>) {
    exists d: nat, n: nat, up: bool :: Moves(x, y, d, n, up)
  }

  lemma NextSymmetric(x: seq<Word>, y: seq<Word>)
    requires Next(x, y)
    ensures Next(y, x)
  {
    var d: nat, n: nat, up: bool :| Moves(x, y, d, n, up);
    assert Moves(y, x, d, n, !up);
  }

  lemma NotReverses(a: Word, b: Word, n: nat)
    requires SuccAt(a, b, n)
    ensures SuccAt(Not(b), Not(a), n)
  {
  }

  // ---- neighbours stay neighbours inside a cell ----

  lemma LowStepKeepsNext(x: seq<Word>, y: seq<Word>, g: Word, r: nat, p: nat, i: nat)
    requires Shaped(x, r, p) && Shaped(y, r, p) && |g| == r && i < r && Next(x, y)
    ensures Next(LowStep(x, g, r, p, i), LowStep(y, g, r, p, i))
  {
    var d: nat, n: nat, up: bool :| Moves(x, y, d, n, up);
    var x', y' := LowStep(x, g, r, p, i), LowStep(y, g, r, p, i);
    if g[i] {
      if d == 0 {
        if up { NotReverses(x[0], y[0], n); } else { NotReverses(y[0], x[0], n); }
        assert Moves(x', y', 0, n, !up);
      } else {
        assert Moves(x', y', d, n, up);
      }
    } else {
      var e := if d == 0 then i else if d == i then 0 else d;
      assert Moves(x', y', e, n, up);
    }
  }

  lemma {:induction false} TwistKeepsNext(x: seq<Word>, y: seq<Word>, g: Word, r: nat, p: nat, n: nat)
    requires Shaped(x, r, p) && Shaped(y, r, p) && |g| == r && n <= r && Next(x, y)
    ensures Next(Twist(x, g, r, p, n), Twist(y, g, r, p, n))
    decreases n
  {
    if n > 0 {
      LowStepKeepsNext(x, y, g, r, p, n - 1);
      TwistKeepsNext(LowStep(x, g, r, p, n - 1), LowStep(y, g, r, p, n - 1), g, r, p, n - 1);
    }
  }

  lemma SuccUnder(a: Word, b: Word, n: nat, top: bool)
    requires SuccAt(a, b, n)
    ensures SuccAt(a + [top], b + [top], n)
  {
  }

  lemma JoinKeepsNext(x: seq<Word>, y: seq<Word>, g: Word, r: nat, p: nat)
    requires Shaped(x, r, p) && Shaped(y, r, p) && |g| == r && Next(x, y)
    ensures Next(Join(x, g, r, p), Join(y, g, r, p))
  {
    var d: nat, n: nat, up: bool :| Moves(x, y, d, n, up);
    if up { SuccUnder(x[d], y[d], n, g[d]); } else { SuccUnder(y[d], x[d], n, g[d]); }
    assert Moves(Join(x, g, r, p), Join(y, g, r, p), d, n, up);
  }

  lemma InCellKeepsNext(x: seq<Word>, y: seq<Word>, g: Word, r: nat, p: nat)
    requires Shaped(x, r, p) && Shaped(y, r, p) && |g| == r && Next(x, y)
    ensures Next(InCell(x, g, r, p), InCell(y, g, r, p))
  {
    TwistKeepsNext(x, y, g, r, p, r);
    JoinKeepsNext(Twist(x, g, r, p, r), Twist(y, g, r, p, r), g, r, p);
  }

  // ---- corners ----

  function Fill(bit: bool, p: nat): (w: Word)
    ensures |w| == p && forall k :: 0 <= k < p ==> w[k] == bit
  {
    seq(p, k => bit)
  }

  /** The corner with the first coordinate at its largest or smallest, all others smallest. */
  function Corner(first: bool, r: nat, p: nat): (y: seq<Word>)
    ensures |y| == r && forall i :: 0 <= i < r ==> y[i] == Fill(i == 0 && first, p)
    ensures Shaped(y, r, p)
  {
    seq(r, i => Fill(i == 0 && first, p))
  }

  /** Steps of even cells leave the corner at zero alone. */
  lemma {:induction false} ZeroStays(g: Word, r: nat, p: nat, n: nat, k: nat)
    requires |g| == r && k <= n <= r && forall i :: k <= i < n ==> !g[i]
    ensures Twist(Corner(false, r, p), g, r, p, n) == Twist(Corner(false, r, p), g, r, p, k)
    decreases n
  {
    if k < n {
      var y := Corner(false, r, p);
      SameWords(LowStep(y, g, r, p, n - 1), y, r, p);
      ZeroStays(g, r, p, n - 1, k);
    }
  }

  lemma FirstFlips(g: Word, r: nat, p: nat, i: nat)
    requires |g| == r && i < r && g[i]
    ensures LowStep(Corner(false, r, p), g, r, p, i) == Corner(true, r, p)
  {
    assert Not(Fill(false, p)) == Fill(true, p);
    SameWords(LowStep(Corner(false, r, p), g, r, p, i), Corner(true, r, p), r, p);
  }

  lemma CornerJoins(first: bool, g: Word, r: nat, p: nat)
    requires |g| == r && forall i :: 0 <= i < r ==> g[i] == (i == 0 && first)
    ensures Join(Corner(first, r, p), g, r, p) == Corner(first, r, p + 1)
  {
    SameWords(Join(Corner(first, r, p), g, r, p), Corner(first, r, p + 1), r, p + 1);
  }

  lemma SplitFill(bit: bool, r: nat, p: nat)
    requires r >= 1
    ensures |Fill(bit, r * (p + 1))| == r * (p + 1)
    ensures Top(Fill(bit, r * (p + 1)), r, p) == Fill(bit, r)
    ensures Inner(Fill(bit, r * (p + 1)), r, p) == Fill(false, r * p)
  {
    LevelSize(r, p + 1);
  }

  lemma FillCell(bit: bool, r: nat)
    ensures forall i :: 0 <= i < r ==> Cell(Fill(bit, r), r)[i] == (i == 0 && bit)
  {
  }

  /** The corner at zero, in the first or in the last cell. */
  lemma CornerInCell(bit: bool, r: nat, p: nat)
    requires r >= 1
    ensures InCell(Corner(false, r, p), Cell(Fill(bit, r), r), r, p) == Corner(bit, r, p + 1)
  {
    var g := Cell(Fill(bit, r), r);
    FillCell(bit, r);
    ZeroStays(g, r, p, r, 1);
    if bit {
      FirstFlips(g, r, p, 0);
    } else {
      ZeroStays(g, r, p, 1, 0);
    }
    CornerJoins(bit, g, r, p);
  }

  lemma NoOrder(h: Word, first: bool, r: nat)
    requires |h| == r * 0 && r >= 1
    ensures Curve(h, r, 0) == Corner(first, r, 0)
  {
    SameWords(Curve(h, r, 0), Corner(first, r, 0), r, 0);
  }

  /** The curve starts at the corner at zero. */
  lemma {:induction false} CurveStart(r: nat, p: nat)
    requires r >= 1
    ensures Curve(Fill(false, r * p), r, p) == Corner(false, r, p)
    decreases p
  {
    if p == 0 {
      NoOrder(Fill(false, r * p), false, r);
    } else {
      SplitFill(false, r, p - 1);
      CurveStart(r, p - 1);
      CornerInCell(false, r, p - 1);
    }
  }

  /** It ends with the first coordinate at its largest and the others at zero. */
  lemma CurveEnd(r: nat, p: nat)
    requires r >= 1
    ensures Curve(Fill(true, r * p), r, p) == Corner(true, r, p)
  {
    if p == 0 {
      NoOrder(Fill(true, r * p), true, r);
    } else {
      SplitFill(true, r, p - 1);
      CurveStart(r, p - 1);
      CornerInCell(true, r, p - 1);
    }
  }

  // ---- from one cell to the next ----

  /** Bit `d` alone differs; if other digits roll over below it, cells `d + 1` on agree with
      a one followed by zeros. */
  ghost predicate GrayStep(g: Word, g': Word, d: nat, rolls: bool) {
    && |g| == |g'| && d < |g| && g[d] != g'[d]
    && (forall i :: 0 <= i < |g| && i != d ==> g[i] == g'[i])
    && (rolls <==> d + 1 < |g|)
    && (forall i :: d < i < |g| ==> g[i] == (i == d + 1))
  }

  lemma CellsStep(a: Word, b: Word, m: nat, r: nat)
    requires |a| == r && SuccAt(a, b, m)
    ensures GrayStep(Cell(a, r), Cell(b, r), r - 1 - m, m > 0)
  {
  }

  /** Where the curve of the order below meets the boundary with the next cell, half-way. */
  lemma ReachBoundary(g: Word, g': Word, d: nat, rolls: bool, r: nat, p: nat)
    requires |g| == r && GrayStep(g, g', d, rolls)
    ensures Twist(Corner(!rolls, r, p), g, r, p, r) == Twist(Corner(true, r, p), g, r, p, d + 1)
  {
    if rolls {
      ZeroStays(g, r, p, r, d + 2);
      FirstFlips(g, r, p, d + 1);
    }
  }

  /** `y` and `z` agree but in word `d`, where each is all ones or all zeros, against `g`. */
  ghost predicate Facing(y: seq<Word>, z: seq<Word>, g: Word, g': Word, d: nat, r: nat, p: nat) {
    && Shaped(y, r, p) && Shaped(z, r, p) && |g| == |g'| == r && d < r
    && (forall i :: 0 <= i < r && i != d ==> y[i] == z[i])
    && y[d] == Fill(!g[d], p) && z[d] == Fill(!g'[d], p)
  }

  lemma StepFaces(g: Word, g': Word, d: nat, rolls: bool, r: nat, p: nat)
    requires |g| == r && GrayStep(g, g', d, rolls)
    ensures Facing(LowStep(Corner(true, r, p), g, r, p, d), LowStep(Corner(true, r, p), g', r, p, d), g, g', d, r, p)
  {
    assert Not(Fill(true, p)) == Fill(false, p);
  }

  lemma {:induction false} FacingStays(y: seq<Word>, z: seq<Word>, g: Word, g': Word, d: nat, rolls: bool, r: nat, p: nat, n: nat)
    requires Facing(y, z, g, g', d, r, p) && GrayStep(g, g', d, rolls) && n <= d
    ensures Facing(Twist(y, g, r, p, n), Twist(z, g', r, p, n), g, g', d, r, p)
    decreases n
  {
    if n > 0 {
      FacingStays(LowStep(y, g, r, p, n - 1), LowStep(z, g', r, p, n - 1), g, g', d, rolls, r, p, n - 1);
    }
  }

  lemma FacingJoins(y: seq<Word>, z: seq<Word>, g: Word, g': Word, d: nat, rolls: bool, r: nat, p: nat)
    requires Facing(y, z, g, g', d, r, p) && GrayStep(g, g', d, rolls)
    ensures Next(Join(y, g, r, p), Join(z, g', r, p))
  {
    assert Moves(Join(y, g, r, p), Join(z, g', r, p), d, p, g'[d]);
  }

  /** Leaving one cell and entering the next moves one coordinate by one. */
  lemma CellsMeet(g: Word, g': Word, d: nat, rolls: bool, r: nat, p: nat)
    requires |g| == r && GrayStep(g, g', d, rolls)
    ensures Next(InCell(Corner(!rolls, r, p), g, r, p), InCell(Corner(!rolls, r, p), g', r, p))
  {
    ReachBoundary(g, g', d, rolls, r, p);
    ReachBoundary(g', g, d, rolls, r, p);
    StepFaces(g, g', d, rolls, r, p);
    var y, z := LowStep(Corner(true, r, p), g, r, p, d), LowStep(Corner(true, r, p), g', r, p, d);
    FacingStays(y, z, g, g', d, rolls, r, p, d);
    FacingJoins(Twist(y, g, r, p, d), Twist(z, g', r, p, d), g, g', d, rolls, r, p);
  }

  // ---- the whole curve ----

  lemma SplitBelow(a: Word, b: Word, n: nat, r: nat, p: nat)
    requires |a| == r * (p + 1) && r >= 1 && SuccAt(a, b, n) && n < r * p
    ensures Top(a, r, p) == Top(b, r, p)
    ensures SuccAt(Inner(a, r, p), Inner(b, r, p), n) || SuccAt(Inner(b, r, p), Inner(a, r, p), n)
  {
    LevelSize(r, p + 1);
    var u, v := a[..r * p], b[..r * p];
    assert SuccAt(u, v, n);
    NotReverses(u, v, n);
    assert Top(a, r, p) == Top(b, r, p);
    assert a[r * p] == b[r * p];
  }

  lemma SplitAbove(a: Word, b: Word, n: nat, r: nat, p: nat)
    requires |a| == r * (p + 1) && r >= 1 && SuccAt(a, b, n) && n >= r * p
    ensures SuccAt(Top(a, r, p), Top(b, r, p), n - r * p)
    ensures Inner(a, r, p) == Inner(b, r, p) == Fill(n == r * p, r * p)
  {
    LevelSize(r, p + 1);
  }

  lemma {:induction false} CurveLocal(a: Word, b: Word, n: nat, r: nat, p: nat)
    requires |a| == r * p && r >= 1 && SuccAt(a, b, n)
    ensures Next(Curve(a, r, p), Curve(b, r, p))
    decreases p
  {
    if p > 0 {
      var q := p - 1;
      if n < r * q {
        SplitBelow(a, b, n, r, q);
        var u, v := Inner(a, r, q), Inner(b, r, q);
        if SuccAt(u, v, n) {
          CurveLocal(u, v, n, r, q);
        } else {
          CurveLocal(v, u, n, r, q);
          NextSymmetric(Curve(v, r, q), Curve(u, r, q));
        }
        InCellKeepsNext(Curve(u, r, q), Curve(v, r, q), Cell(Top(a, r, q), r), r, q);
      } else {
        SplitAbove(a, b, n, r, q);
        var m := n - r * q;
        CellsStep(Top(a, r, q), Top(b, r, q), m, r);
        CurveStart(r, q);
        CurveEnd(r, q);
        CellsMeet(Cell(Top(a, r, q), r), Cell(Top(b, r, q), r), r - 1 - m, m > 0, r, q);
      }
    }
  }
}
