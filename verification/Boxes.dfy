/** Axis-aligned boxes in an n-dimensional index space, and how many cells they hold. */
module Boxes {
  import opened Shapes

  /** An n-dimensional index. */
  type Index = seq<nat>

  /** A member's box: where it starts in the head, and its extent in each dimension. */
  datatype Box = Box(offset: seq<U64>, shape: seq<U64>)

  /** `x` lies in the half-open range `[offset, offset + shape)` in every dimension. */
  ghost predicate InRange(x: Index, offset: seq<nat>, shape: seq<nat>)
    requires |offset| == |shape|
  {
    && |x| == |offset|
    && forall k :: 0 <= k < |x| ==> offset[k] <= x[k] < offset[k] + shape[k]
  }

  ghost predicate WellRanked(b: Box) {
    |b.offset| == |b.shape|
  }

  ghost predicate Contains(b: Box, x: Index) {
    WellRanked(b) && InRange(x, b.offset, b.shape)
  }

  /** `x` is an index of a tensor with shape `head`. */
  ghost predicate IsCell(x: Index, head: seq<nat>) {
    |x| == |head| && forall k :: 0 <= k < |x| ==> x[k] < head[k]
  }

  /** The first coordinate past the box in dimension `k`, with no wrap-around. */
  ghost function Upper(b: Box, k: nat): nat
    requires k < |b.offset| == |b.shape|
  {
    b.offset[k] as int + b.shape[k] as int
  }

  /** The box lies inside the head in every dimension. */
  ghost predicate InBounds(b: Box, head: seq<nat>) {
    && |b.offset| == |b.shape| == |head|
    && forall k :: 0 <= k < |head| ==> Upper(b, k) <= head[k]
  }

  /** The box has at least one cell. */
  ghost predicate NonEmpty(b: Box) {
    0 !in b.shape
  }

  // ---- the finite set of cells of a box, and its size ----

  ghost function Interval(lo: nat, len: nat): (s: set<nat>)
    ensures forall a :: a in s <==> lo <= a < lo + len
    ensures |s| == len
    decreases len
  {
    if len == 0 then {} else Interval(lo, len - 1) + {lo + len - 1}
  }

  /** All sequences made of a first coordinate from `heads` and a rest from `tails`. */
  ghost function Grid(heads: set<nat>, tails: set<Index>): set<Index> {
    set a, t | a in heads && t in tails :: [a] + t
  }

  ghost function Cells(offset: seq<nat>, shape: seq<nat>): (cells: set<Index>)
    requires |offset| == |shape|
  {
    if offset == [] then {[]} else
    Grid(Interval(offset[0], shape[0]), Cells(offset[1..], shape[1..]))
  }

  lemma GridMember(heads: set<nat>, tails: set<Index>, x: Index)
    ensures x in Grid(heads, tails) <==> |x| > 0 && x[0] in heads && x[1..] in tails
  {
    if x in Grid(heads, tails) {
      var a, t :| a in heads && t in tails && x == [a] + t;
      assert x[0] == a && x[1..] == t;
    }
    if |x| > 0 && x[0] in heads && x[1..] in tails {
      assert x == [x[0]] + x[1..];
    }
  }

  lemma {:induction false} CellsAreRange(offset: seq<nat>, shape: seq<nat>, x: Index)
    requires |offset| == |shape|
    ensures x in Cells(offset, shape) <==> InRange(x, offset, shape)
  {
    if offset != [] {
      GridMember(Interval(offset[0], shape[0]), Cells(offset[1..], shape[1..]), x);
      if x != [] {
        CellsAreRange(offset[1..], shape[1..], x[1..]);
        RangeUncons(x, offset, shape);
      }
    }
  }

  lemma RangeUncons(x: Index, offset: seq<nat>, shape: seq<nat>)
    requires |offset| == |shape| > 0 && |x| > 0
    ensures InRange(x, offset, shape) <==>
            offset[0] <= x[0] < offset[0] + shape[0] && InRange(x[1..], offset[1..], shape[1..])
  {
    if offset[0] <= x[0] < offset[0] + shape[0] && InRange(x[1..], offset[1..], shape[1..]) {
      forall k | 0 <= k < |x|
        ensures offset[k] <= x[k] < offset[k] + shape[k]
      {
        if k > 0 { assert x[1..][k - 1] == x[k]; }
      }
    }
  }

  /** Grids over disjoint first coordinates split; here one coordinate is taken off. */
  lemma GridSplit(heads: set<nat>, tails: set<Index>, a: nat)
    requires a in heads
    ensures Grid(heads, tails) == Grid(heads - {a}, tails) + Grid({a}, tails)
    ensures Grid(heads - {a}, tails) !! Grid({a}, tails)
  {
    forall x: Index
      ensures x in Grid(heads, tails) <==> x in Grid(heads - {a}, tails) || x in Grid({a}, tails)
      ensures !(x in Grid(heads - {a}, tails) && x in Grid({a}, tails))
    {
      GridMember(heads, tails, x);
      GridMember(heads - {a}, tails, x);
      GridMember({a}, tails, x);
    }
  }

  lemma SlabSplit(a: nat, tails: set<Index>, t: Index)
    requires t in tails
    ensures Grid({a}, tails) == Grid({a}, tails - {t}) + {[a] + t}
    ensures [a] + t !in Grid({a}, tails - {t})
  {
    assert ([a] + t)[1..] == t;
    GridMember({a}, tails - {t}, [a] + t);
    forall x: Index
      ensures x in Grid({a}, tails) <==> x in Grid({a}, tails - {t}) || x == [a] + t
    {
      GridMember({a}, tails, x);
      GridMember({a}, tails - {t}, x);
      if |x| > 0 { assert x == [x[0]] + x[1..]; }
    }
  }

  lemma {:induction false} SlabSize(a: nat, tails: set<Index>)
    ensures |Grid({a}, tails)| == |tails|
  {
    if tails == {} {
      assert Grid({a}, tails) == {};
    } else {
      var t :| t in tails;
      SlabSize(a, tails - {t});
      SlabSplit(a, tails, t);
    }
  }

  lemma {:induction false} GridSize(heads: set<nat>, tails: set<Index>)
    ensures |Grid(heads, tails)| == |heads| * |tails|
  {
    if heads == {} {
      assert Grid(heads, tails) == {};
    } else {
      var a :| a in heads;
      var rest := heads - {a};
      GridSize(rest, tails);
      SlabSize(a, tails);
      GridSplit(heads, tails, a);
      assert |Grid(heads, tails)| == |Grid(rest, tails)| + |Grid({a}, tails)|;
      assert |heads| == |rest| + 1;
      MulSuccessor(|rest|, |tails|);
    }
  }

  lemma MulSuccessor(n: nat, m: nat)
    ensures (n + 1) * m == n * m + m
  {
  }

  /** A box holds as many cells as the product of its extents. */
  lemma {:induction false} CellCount(offset: seq<nat>, shape: seq<nat>)
    requires |offset| == |shape|
    ensures |Cells(offset, shape)| == Product(shape)
  {
    if offset != [] {
      CellCount(offset[1..], shape[1..]);
      GridSize(Interval(offset[0], shape[0]), Cells(offset[1..], shape[1..]));
    }
  }

  // ---- finite sets ----

  lemma {:induction false} SubsetSize<T>(a: set<T>, b: set<T>)
    requires a <= b
    ensures |a| <= |b|
    ensures |a| == |b| ==> a == b
  {
    if a != {} {
      var e :| e in a;
      SubsetSize(a - {e}, b - {e});
      if |a| == |b| {
        assert a == (a - {e}) + {e} && b == (b - {e}) + {e};
      }
    } else if |b| == 0 {
    }
  }
}
