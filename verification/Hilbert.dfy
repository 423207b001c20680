/** The Hilbert curve layout: coordinates to curve index and back. Words are bit sequences,
    least significant bit first. */
module Hilbert {
  import opened Packing

  type Word = seq<bool>

  /** `r` coordinates of `p` bits. */
  ghost predicate Shaped(x: seq<Word>, r: nat, p: nat) {
    |x| == r && forall i :: 0 <= i < r ==> |x[i]| == p
  }

  // ---- bitwise operations ----

  function Xor(a: Word, b: Word): (c: Word)
    requires |a| == |b|
    ensures |c| == |a| && forall k :: 0 <= k < |a| ==> c[k] == (a[k] != b[k])
  {
    seq(|a|, k requires 0 <= k < |a| => a[k] != b[k])
  }

  /** `v & (2^j - 1)`. */
  function LowBits(v: Word, j: nat): (c: Word)
    ensures |c| == |v| && forall k :: 0 <= k < |v| ==> c[k] == (k < j && v[k])
  {
    seq(|v|, k requires 0 <= k < |v| => k < j && v[k])
  }

  /** `2^j - 1` in `p` bits. */
  function Ones(p: nat, j: nat): (c: Word)
    ensures |c| == p && forall k :: 0 <= k < p ==> c[k] == (k < j)
  {
    seq(p, k requires 0 <= k < p => k < j)
  }

  // ---- one step of the algorithm ----

  /** Step `i` of the round on bit `j`: invert the low bits of the first coordinate, or exchange
      them with those of coordinate `i`, as the exclusive-or operations do. */
  function Step(x: seq<Word>, r: nat, p: nat, j: nat, i: nat): (y: seq<Word>)
    requires Shaped(x, r, p) && i < r && j < p
    ensures Shaped(y, r, p)
  {
    if x[i][j] then
      x[0 := Xor(x[0], Ones(p, j))]
    else
      var t := LowBits(Xor(x[0], x[i]), j);
      var y := x[0 := Xor(x[0], t)];
      y[i := Xor(y[i], t)]
  }

  /** A step is its own inverse. */
  lemma StepTwice(x: seq<Word>, r: nat, p: nat, j: nat, i: nat)
    requires Shaped(x, r, p) && i < r && j < p
    ensures Step(Step(x, r, p, j, i), r, p, j, i) == x
  {
    var y := Step(x, r, p, j, i);
    var z := Step(y, r, p, j, i);
    assert y[i][j] == x[i][j];
    forall k | 0 <= k < r
      ensures z[k] == x[k]
    {
    }
  }

  /** The steps `0 .. n` of a round, upwards and downwards. */
  ghost function Up(x: seq<Word>, r: nat, p: nat, j: nat, n: nat): (y: seq<Word>)
    requires Shaped(x, r, p) && n <= r && j < p
    ensures Shaped(y, r, p)
  {
    if n == 0 then x else Step(Up(x, r, p, j, n - 1), r, p, j, n - 1)
  }

  ghost function Down(x: seq<Word>, r: nat, p: nat, j: nat, n: nat): (y: seq<Word>)
    requires Shaped(x, r, p) && n <= r && j < p
    ensures Shaped(y, r, p)
    decreases n
  {
    if n == 0 then x else Down(Step(x, r, p, j, n - 1), r, p, j, n - 1)
  }

  lemma {:induction false} DownUndoesUp(x: seq<Word>, r: nat, p: nat, j: nat, n: nat)
    requires Shaped(x, r, p) && n <= r && j < p
    ensures Down(Up(x, r, p, j, n), r, p, j, n) == x
  {
    if n > 0 {
      StepTwice(Up(x, r, p, j, n - 1), r, p, j, n - 1);
      DownUndoesUp(x, r, p, j, n - 1);
    }
  }

  lemma {:induction false} UpUndoesDown(x: seq<Word>, r: nat, p: nat, j: nat, n: nat)
    requires Shaped(x, r, p) && n <= r && j < p
    ensures Up(Down(x, r, p, j, n), r, p, j, n) == x
    decreases n
  {
    if n > 0 {
      UpUndoesDown(Step(x, r, p, j, n - 1), r, p, j, n - 1);
      StepTwice(x, r, p, j, n - 1);
    }
  }

  // ---- all rounds ----

  /** Rounds on bits `p - 1` down to `k`. */
  ghost function Rounds(x: seq<Word>, r: nat, p: nat, k: nat): (y: seq<Word>)
    requires Shaped(x, r, p) && k <= p
    ensures Shaped(y, r, p)
    decreases p - k
  {
    if k == p then x else Up(Rounds(x, r, p, k + 1), r, p, k, r)
  }

  /** Rounds on bits `k` up to `p - 1`, each backwards. */
  ghost function Unrounds(x: seq<Word>, r: nat, p: nat, k: nat): (y: seq<Word>)
    requires Shaped(x, r, p) && k <= p
    ensures Shaped(y, r, p)
    decreases p - k
  {
    if k == p then x else Unrounds(Down(x, r, p, k, r), r, p, k + 1)
  }

  lemma {:induction false} UnroundsUndo(x: seq<Word>, r: nat, p: nat, k: nat)
    requires Shaped(x, r, p) && k <= p
    ensures Unrounds(Rounds(x, r, p, k), r, p, k) == x
    decreases p - k
  {
    if k < p {
      DownUndoesUp(Rounds(x, r, p, k + 1), r, p, k, r);
      UnroundsUndo(x, r, p, k + 1);
    }
  }

  lemma {:induction false} RoundsUndo(x: seq<Word>, r: nat, p: nat, k: nat)
    requires Shaped(x, r, p) && k <= p
    ensures Rounds(Unrounds(x, r, p, k), r, p, k) == x
    decreases p - k
  {
    if k < p {
      RoundsUndo(Down(x, r, p, k, r), r, p, k + 1);
      UpUndoesDown(x, r, p, k, r);
    }
  }

  // ---- the Gray code across coordinates ----

  /** Running exclusive-or: coordinate `i` becomes the exclusive-or of coordinates `0 .. i`. */
  ghost function Running(x: seq<Word>, r: nat, p: nat, n: nat): (y: seq<Word>)
    requires Shaped(x, r, p) && 1 <= n <= r
    ensures Shaped(y, r, p)
    ensures forall i :: n <= i < r ==> y[i] == x[i]
    ensures y[0] == x[0]
    ensures forall i :: 1 <= i < n ==> y[i] == Xor(x[i], y[i - 1])
    decreases n
  {
    if n == 1 then x else
    var y := Running(x, r, p, n - 1);
    y[n - 1 := Xor(y[n - 1], y[n - 2])]
  }

  /** Exclusive-or with the coordinate before, all at once. */
  function Differences(y: seq<Word>, r: nat, p: nat): (x: seq<Word>)
    requires Shaped(y, r, p) && r >= 1
    ensures Shaped(x, r, p)
    ensures x[0] == y[0] && forall i :: 1 <= i < r ==> x[i] == Xor(y[i], y[i - 1])
  {
    seq(r, i requires 0 <= i < r => DifferenceAt(y, r, p, i))
  }

  function DifferenceAt(y: seq<Word>, r: nat, p: nat, i: nat): (w: Word)
    requires Shaped(y, r, p) && i < r
    ensures |w| == p
  {
    if i == 0 then y[0] else Xor(y[i], y[i - 1])
  }

  lemma XorTwice(a: Word, b: Word)
    requires |a| == |b|
    ensures Xor(Xor(a, b), b) == a
  {
  }

  // ---- parity of the bits above ----

  /** Whether an odd number of the bits from `k` on are set. */
  ghost function Parity(w: Word, k: nat): bool
    requires k <= |w|
    decreases |w| - k
  {
    if k == |w| then false else w[k] != Parity(w, k + 1)
  }

  /** The accumulator of the second loop after bits `p - 1` down to `k`. */
  ghost function Mask(w: Word, k: nat): (t: Word)
    requires k <= |w|
    ensures |t| == |w|
    decreases |w| - k
  {
    if k == |w| then Ones(|w|, 0) else
    var t := Mask(w, k + 1);
    if w[k] then Xor(t, Ones(|w|, k)) else t
  }

  lemma {:induction false} MaskBit(w: Word, k: nat, b: nat)
    requires k <= |w| && b < |w|
    ensures Mask(w, k)[b] == Parity(w, if k <= b + 1 then b + 1 else k)
    decreases |w| - k
  {
    if k < |w| {
      MaskBit(w, k + 1, b);
      if k <= b {
        assert !Ones(|w|, k)[b];
      } else {
        assert Ones(|w|, k)[b];
      }
    }
  }

  /** `w >> 1`. */
  function Shift(w: Word): (c: Word)
    ensures |c| == |w| && forall k :: 0 <= k < |w| ==> c[k] == (k + 1 < |w| && w[k + 1])
  {
    seq(|w|, k requires 0 <= k < |w| => k + 1 < |w| && w[k + 1])
  }

  /** Applying the mask and shifting right gives the mask back. */
  lemma MaskFromMasked(v: Word)
    requires |v| > 0
    ensures Shift(Xor(v, Mask(v, 1))) == Mask(v, 1)
  {
    var t := Mask(v, 1);
    forall b | 0 <= b < |v|
      ensures Shift(Xor(v, t))[b] == t[b]
    {
      MaskedBit(v, b);
    }
  }

  lemma MaskedBit(v: Word, b: nat)
    requires b < |v|
    ensures Mask(v, 1)[b] == (b + 1 < |v| && (v[b + 1] != Mask(v, 1)[b + 1]))
  {
    MaskBit(v, 1, b);
    if b + 1 < |v| { MaskBit(v, 1, b + 1); }
  }

  /** `v` is `c` exclusive-ored with its shift. */
  ghost predicate Neighbours(v: Word, c: Word) {
    |v| == |c| && forall k :: 0 <= k < |c| ==> v[k] == (c[k] != (k + 1 < |c| && c[k + 1]))
  }

  lemma {:induction false} ParityOfDifferences(v: Word, c: Word, k: nat)
    requires Neighbours(v, c) && k <= |c|
    ensures Parity(v, k) == (k < |c| && c[k])
    decreases |c| - k
  {
    if k < |c| {
      ParityOfDifferences(v, c, k + 1);
      assert v[k] == (c[k] != (k + 1 < |c| && c[k + 1]));
    }
  }

  lemma UnmaskedBit(v: Word, c: Word, b: nat)
    requires Neighbours(v, c) && b < |c|
    ensures Mask(v, 1)[b] == (b + 1 < |c| && c[b + 1])
  {
    MaskBit(v, 1, b);
    ParityOfDifferences(v, c, b + 1);
  }

  /** Conversely, the mask of a word exclusive-ored with its shift is the shift. */
  lemma MaskOfUnmasked(c: Word)
    requires |c| > 0
    ensures Mask(Xor(c, Shift(c)), 1) == Shift(c)
  {
    var v := Xor(c, Shift(c));
    assert Neighbours(v, c);
    forall b | 0 <= b < |c|
      ensures Mask(v, 1)[b] == Shift(c)[b]
    {
      UnmaskedBit(v, c, b);
    }
  }

  // ---- coordinates to curve index, before packing ----

  function XorAll(x: seq<Word>, r: nat, p: nat, t: Word): (y: seq<Word>)
    requires Shaped(x, r, p) && |t| == p
    ensures Shaped(y, r, p)
    ensures forall i :: 0 <= i < r ==> y[i] == Xor(x[i], t)
  {
    seq(r, i requires 0 <= i < r => Xor(x[i], t))
  }

  /** The Gray-code part: running exclusive-or, then the mask of the last coordinate. */
  ghost function Encode(a: seq<Word>, r: nat, p: nat): (c: seq<Word>)
    requires Shaped(a, r, p) && r >= 1 && p >= 1
    ensures Shaped(c, r, p)
  {
    var b := Running(a, r, p, r);
    XorAll(b, r, p, Mask(b[r - 1], 1))
  }

  ghost function Decode(c: seq<Word>, r: nat, p: nat): (a: seq<Word>)
    requires Shaped(c, r, p) && r >= 1 && p >= 1
    ensures Shaped(a, r, p)
  {
    var d := Differences(c, r, p);
    d[0 := Xor(d[0], Shift(c[r - 1]))]
  }

  lemma XorCommon(a: Word, b: Word, t: Word)
    requires |a| == |b| == |t|
    ensures Xor(Xor(a, t), Xor(b, t)) == Xor(a, b)
  {
  }

  lemma DecodeEncode(a: seq<Word>, r: nat, p: nat)
    requires Shaped(a, r, p) && r >= 1 && p >= 1
    ensures Decode(Encode(a, r, p), r, p) == a
  {
    var b := Running(a, r, p, r);
    var t := Mask(b[r - 1], 1);
    var c := Encode(a, r, p);
    MaskFromMasked(b[r - 1]);
    forall i | 0 <= i < r
      ensures Decode(c, r, p)[i] == a[i]
    {
      if i == 0 {
        XorTwice(b[0], t);
      } else {
        XorCommon(b[i], b[i - 1], t);
        XorTwice(a[i], b[i - 1]);
      }
    }
  }

  /** Running exclusive-or of decoded coordinates: all of them off by the same word. */
  lemma {:induction false} RunningOfDecoded(c: seq<Word>, r: nat, p: nat, i: nat)
    requires Shaped(c, r, p) && p >= 1 && i < r
    ensures Running(Decode(c, r, p), r, p, r)[i] == Xor(c[i], Shift(c[r - 1]))
  {
    var a := Decode(c, r, p);
    var b := Running(a, r, p, r);
    if i > 0 {
      RunningOfDecoded(c, r, p, i - 1);
      assert b[i] == Xor(a[i], b[i - 1]) && a[i] == Xor(c[i], c[i - 1]);
      XorChain(c[i], c[i - 1], Shift(c[r - 1]));
    }
  }

  lemma XorChain(a: Word, b: Word, t: Word)
    requires |a| == |b| == |t|
    ensures Xor(Xor(a, b), Xor(b, t)) == Xor(a, t)
  {
  }

  lemma EncodeDecode(c: seq<Word>, r: nat, p: nat)
    requires Shaped(c, r, p) && r >= 1 && p >= 1
    ensures Encode(Decode(c, r, p), r, p) == c
  {
    var t := Shift(c[r - 1]);
    var b := Running(Decode(c, r, p), r, p, r);
    RunningOfDecoded(c, r, p, r - 1);
    MaskOfUnmasked(c[r - 1]);
    forall i | 0 <= i < r
      ensures Encode(Decode(c, r, p), r, p)[i] == c[i]
    {
      RunningOfDecoded(c, r, p, i);
      XorTwice(c[i], t);
    }
  }

  // ---- packing ----

  /** Bit `b * r + (r - 1 - d)` of the index is bit `b` of coordinate `d`. */
  function Pack(c: seq<Word>, r: nat, p: nat): (h: Word)
    requires Shaped(c, r, p) && r >= 1
    ensures |h| == r * p
  {
    seq(r * p, k requires 0 <= k < r * p => PackedBit(c, r, p, k))
  }

  function PackedBit(c: seq<Word>, r: nat, p: nat, k: nat): bool
    requires Shaped(c, r, p) && r >= 1 && k < r * p
  {
    LevelOf(k, r, p);
    c[r - 1 - k % r][k / r]
  }

  lemma LevelOf(k: nat, r: nat, p: nat)
    requires r >= 1 && k < r * p
    ensures k / r < p && k % r < r
  {
    QuotientBelow(k, r, p);
  }

  /** The position of bit `b` of coordinate `d`. */
  function Place(r: nat, b: nat, d: nat): nat
    requires d < r
  {
    r * b + (r - 1 - d)
  }

  lemma PlaceFits(r: nat, p: nat, b: nat, d: nat)
    requires d < r && b < p
    ensures Place(r, b, d) < r * p
    ensures Place(r, b, d) / r == b && Place(r, b, d) % r == r - 1 - d
  {
    SplitIndex(r, b, r - 1 - d, p);
  }

  function Unpack(h: Word, r: nat, p: nat): (c: seq<Word>)
    requires |h| == r * p
    ensures Shaped(c, r, p)
  {
    seq(r, d requires 0 <= d < r => UnpackedWord(h, r, p, d))
  }

  function UnpackedWord(h: Word, r: nat, p: nat, d: nat): (w: Word)
    requires |h| == r * p && d < r
    ensures |w| == p
  {
    seq(p, b requires 0 <= b < p => (PlaceFits(r, p, b, d); h[Place(r, b, d)]))
  }

  lemma UnpackPack(c: seq<Word>, r: nat, p: nat)
    requires Shaped(c, r, p) && r >= 1
    ensures Unpack(Pack(c, r, p), r, p) == c
  {
    var h := Pack(c, r, p);
    forall d | 0 <= d < r
      ensures Unpack(h, r, p)[d] == c[d]
    {
      forall b | 0 <= b < p
        ensures Unpack(h, r, p)[d][b] == c[d][b]
      {
        PlaceFits(r, p, b, d);
      }
    }
  }

  lemma PlaceOf(k: nat, r: nat)
    requires r >= 1
    ensures 0 <= k / r && 0 <= k % r < r && Place(r, k / r, r - 1 - k % r) == k
  {
    DivParts(k, r);
  }

  lemma PackUnpack(h: Word, r: nat, p: nat)
    requires |h| == r * p && r >= 1
    ensures Pack(Unpack(h, r, p), r, p) == h
  {
    forall k | 0 <= k < r * p
      ensures Pack(Unpack(h, r, p), r, p)[k] == h[k]
    {
      LevelOf(k, r, p);
      PlaceOf(k, r);
    }
  }

  // ---- the whole mapping ----

  ghost function CoordsToHilbert(x: seq<Word>, r: nat, p: nat): (h: Word)
    requires Shaped(x, r, p) && r >= 1 && p >= 1
    ensures |h| == r * p
  {
    Pack(Encode(Rounds(x, r, p, 1), r, p), r, p)
  }

  ghost function HilbertToCoords(h: Word, r: nat, p: nat): (x: seq<Word>)
    requires |h| == r * p && r >= 1 && p >= 1
    ensures Shaped(x, r, p)
  {
    Unrounds(Decode(Unpack(h, r, p), r, p), r, p, 1)
  }

  /** The two normative algorithms are inverse to each other, for every rank and order: the
      layout places every element at its own offset and leaves no offset unused. */
  lemma HilbertRoundTrip(x: seq<Word>, r: nat, p: nat)
    requires Shaped(x, r, p) && r >= 1 && p >= 1
    ensures HilbertToCoords(CoordsToHilbert(x, r, p), r, p) == x
  {
    var a := Rounds(x, r, p, 1);
    UnpackPack(Encode(a, r, p), r, p);
    DecodeEncode(a, r, p);
    UnroundsUndo(x, r, p, 1);
  }

  lemma HilbertOnto(h: Word, r: nat, p: nat)
    requires |h| == r * p && r >= 1 && p >= 1
    ensures CoordsToHilbert(HilbertToCoords(h, r, p), r, p) == h
  {
    var c := Unpack(h, r, p);
    RoundsUndo(Decode(c, r, p), r, p, 1);
    EncodeDecode(c, r, p);
    PackUnpack(h, r, p);
  }
}
