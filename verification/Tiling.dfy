/** What the partition check decides: which boxes its interval test rejects, why volumes count
    indices, and when acceptance means that every index of the head is in exactly one box. */
module Tiling {
  import opened Shapes
  import opened Boxes
  import opened Coverage

  // ---- what the interval test decides ----

  /** Coordinate `c` lies in the box's range in dimension `k`. */
  ghost predicate Spans(b: Box, k: nat, c: nat)
    requires k < |b.offset| == |b.shape|
  {
    b.offset[k] <= c < Upper(b, k)
  }

  /** The two ranges in dimension `k` have a coordinate in common. */
  ghost predicate ShareCoordinate(a: Box, b: Box, k: nat)
    requires k < |a.offset| == |a.shape| == |b.offset| == |b.shape|
  {
    exists c: nat :: Spans(a, k, c) && Spans(b, k, c)
  }

  /** `a` has no extent in dimension `k` and sits strictly between the ends of `b`. */
  ghost predicate StrictlyInside(a: Box, b: Box, k: nat)
    requires k < |a.offset| == |a.shape| == |b.offset| == |b.shape|
  {
    a.shape[k] == 0 && b.offset[k] < a.offset[k] < Upper(b, k)
  }

  /** One box is empty, and in every dimension the two have a coordinate in common or one of
      them, without extent there, sits strictly inside the other. No index is shared. */
  ghost predicate EmptyCrossing(a: Box, b: Box) {
    && |a.offset| == |a.shape| == |b.offset| == |b.shape|
    && (!NonEmpty(a) || !NonEmpty(b))
    && forall k :: 0 <= k < |a.offset| ==>
         ShareCoordinate(a, b, k) || StrictlyInside(a, b, k) || StrictlyInside(b, a, k)
  }

  /** Overlap as the format defines it: in every dimension each box starts before the other one
      ends, with no limit to the numbers. */
  ghost predicate IntervalsOverlap(a: Box, b: Box) {
    && |a.offset| == |a.shape| == |b.offset| == |b.shape|
    && forall k :: 0 <= k < |a.offset| ==> a.offset[k] < Upper(b, k) && b.offset[k] < Upper(a, k)
  }

  ghost predicate NonOverlapping(boxes: seq<Box>) {
    forall i, j :: 0 <= i < j < |boxes| ==> !IntervalsOverlap(boxes[i], boxes[j])
  }

  ghost predicate NoEmptyCrossing(boxes: seq<Box>) {
    forall i, j :: 0 <= i < j < |boxes| ==> !EmptyCrossing(boxes[i], boxes[j])
  }

  /** In bounds, saturation never bites: the test is the plain interval test. */
  lemma OverlapIsInterval(a: Box, b: Box, head: seq<U64>)
    requires InBounds(a, head) && InBounds(b, head)
    ensures BoxesOverlap(a, b) <==>
            forall k :: 0 <= k < |head| ==> a.offset[k] < Upper(b, k) && b.offset[k] < Upper(a, k)
  {
    forall k | 0 <= k < |head|
      ensures SaturatingAdd(a.offset[k], a.shape[k]) == Upper(a, k)
      ensures SaturatingAdd(b.offset[k], b.shape[k]) == Upper(b, k)
    {
      assert Upper(a, k) <= head[k] && Upper(b, k) <= head[k];
    }
  }

  /** Two ranges that each start before the other ends meet in a coordinate, unless one of them
      has no extent; then it sits strictly inside the other. */
  lemma IntervalMeets(a: Box, b: Box, k: nat)
    requires k < |a.offset| == |a.shape| == |b.offset| == |b.shape|
    ensures a.offset[k] < Upper(b, k) && b.offset[k] < Upper(a, k) <==>
            ShareCoordinate(a, b, k) || StrictlyInside(a, b, k) || StrictlyInside(b, a, k)
  {
    var c: nat := if a.offset[k] < b.offset[k] then b.offset[k] else a.offset[k];
    if a.shape[k] > 0 && b.shape[k] > 0 && a.offset[k] < Upper(b, k) && b.offset[k] < Upper(a, k) {
      assert Spans(a, k, c) && Spans(b, k, c);
    }
  }

  /** The crossing of an empty box is what the test answers for a pair with one. */
  lemma CrossingOverlaps(a: Box, b: Box, head: seq<U64>)
    requires InBounds(a, head) && InBounds(b, head) && (!NonEmpty(a) || !NonEmpty(b))
    ensures BoxesOverlap(a, b) <==> EmptyCrossing(a, b)
  {
    OverlapIsInterval(a, b, head);
    forall k | 0 <= k < |head|
      ensures a.offset[k] < Upper(b, k) && b.offset[k] < Upper(a, k) <==>
              ShareCoordinate(a, b, k) || StrictlyInside(a, b, k) || StrictlyInside(b, a, k)
    {
      IntervalMeets(a, b, k);
    }
  }

  lemma SharedCellOverlaps(a: Box, b: Box, head: seq<U64>)
    requires InBounds(a, head) && InBounds(b, head) && SharesCell(a, b)
    ensures BoxesOverlap(a, b)
  {
    var x :| Contains(a, x) && Contains(b, x);
    OverlapIsInterval(a, b, head);
  }

  /** The pointwise larger start of two overlapping boxes is a cell of both. */
  lemma OverlapSharesCell(a: Box, b: Box, head: seq<U64>)
    requires InBounds(a, head) && InBounds(b, head) && NonEmpty(a) && NonEmpty(b) && BoxesOverlap(a, b)
    ensures SharesCell(a, b)
  {
    OverlapIsInterval(a, b, head);
    var x: Index := seq(|head|, k requires 0 <= k < |head| =>
      if a.offset[k] < b.offset[k] then b.offset[k] else a.offset[k]);
    forall k | 0 <= k < |head|
      ensures a.offset[k] <= x[k] < a.offset[k] as nat + a.shape[k] as nat
      ensures b.offset[k] <= x[k] < b.offset[k] as nat + b.shape[k] as nat
    {
      assert a.shape[k] in a.shape && b.shape[k] in b.shape;
      assert a.offset[k] < Upper(b, k) && b.offset[k] < Upper(a, k);
    }
    assert Contains(a, x) && Contains(b, x);
  }

  /** The test answers "share a cell", plus the crossings of empty boxes, and nothing else. */
  lemma OverlapDecides(a: Box, b: Box, head: seq<U64>)
    requires InBounds(a, head) && InBounds(b, head)
    ensures BoxesOverlap(a, b) <==> SharesCell(a, b) || EmptyCrossing(a, b)
  {
    if SharesCell(a, b) { SharedCellOverlaps(a, b, head); }
    if NonEmpty(a) && NonEmpty(b) {
      if BoxesOverlap(a, b) { OverlapSharesCell(a, b, head); }
    } else {
      CrossingOverlaps(a, b, head);
    }
  }

  // ---- the counting argument ----

  ghost predicate Disjoint(boxes: seq<Box>) {
    forall i, j :: 0 <= i < j < |boxes| ==> !SharesCell(boxes[i], boxes[j])
  }

  ghost function HeadCells(head: seq<nat>): set<Index> {
    Cells(seq(|head|, _ => 0), head)
  }

  lemma HeadCellsAreCells(head: seq<nat>, x: Index)
    ensures x in HeadCells(head) <==> IsCell(x, head)
  {
    CellsAreRange(seq(|head|, _ => 0), head, x);
  }

  ghost predicate AllRanked(boxes: seq<Box>) {
    forall i :: 0 <= i < |boxes| ==> WellRanked(boxes[i])
  }

  ghost function UnionCells(boxes: seq<Box>): set<Index>
    requires AllRanked(boxes)
  {
    if boxes == [] then {} else
    var last := boxes[|boxes| - 1];
    UnionCells(boxes[..|boxes| - 1]) + Cells(last.offset, last.shape)
  }

  lemma CoveringSnoc(boxes: seq<Box>, x: Index)
    requires boxes != []
    ensures Covering(boxes, x) <==> Covering(boxes[..|boxes| - 1], x) || Contains(boxes[|boxes| - 1], x)
  {
    var rest := boxes[..|boxes| - 1];
    if Covering(rest, x) {
      var i :| 0 <= i < |rest| && Contains(rest[i], x);
      assert Contains(boxes[i], x);
    }
    if Covering(boxes, x) && !Contains(boxes[|boxes| - 1], x) {
      var i :| 0 <= i < |boxes| && Contains(boxes[i], x);
      assert Contains(rest[i], x);
    }
  }

  lemma {:induction false} UnionMember(boxes: seq<Box>, x: Index)
    requires AllRanked(boxes)
    ensures x in UnionCells(boxes) <==> Covering(boxes, x)
  {
    if boxes != [] {
      var n := |boxes| - 1;
      UnionMember(boxes[..n], x);
      CellsAreRange(boxes[n].offset, boxes[n].shape, x);
      CoveringSnoc(boxes, x);
    }
  }

  lemma NotShared(a: Box, b: Box, x: Index)
    requires !SharesCell(a, b) && Contains(a, x)
    ensures !Contains(b, x)
  {
  }

  /** Boxes that share no cell hold together as many cells as their volumes say. */
  lemma {:induction false} UnionSize(boxes: seq<Box>)
    requires AllRanked(boxes) && Disjoint(boxes)
    ensures |UnionCells(boxes)| == TotalVolume(boxes)
  {
    if boxes != [] {
      var n := |boxes| - 1;
      var rest, last := boxes[..n], boxes[n];
      forall i, j | 0 <= i < j < n
        ensures !SharesCell(rest[i], rest[j])
      {
        assert !SharesCell(boxes[i], boxes[j]);
      }
      UnionSize(rest);
      CellCount(last.offset, last.shape);
      forall x | x in UnionCells(rest)
        ensures x !in Cells(last.offset, last.shape)
      {
        UnionMember(rest, x);
        CellsAreRange(last.offset, last.shape, x);
        var i :| 0 <= i < n && Contains(rest[i], x);
        NotShared(boxes[i], last, x);
      }
      assert UnionCells(rest) !! Cells(last.offset, last.shape);
    }
  }

  lemma InsideHead(boxes: seq<Box>, head: seq<nat>)
    requires AllInBounds(boxes, head)
    ensures UnionCells(boxes) <= HeadCells(head)
  {
    forall x | x in UnionCells(boxes)
      ensures x in HeadCells(head)
    {
      UnionMember(boxes, x);
      var i :| 0 <= i < |boxes| && Contains(boxes[i], x);
      assert forall k :: 0 <= k < |head| ==> Upper(boxes[i], k) <= head[k];
      HeadCellsAreCells(head, x);
    }
  }

  /** Cells of in-bounds boxes are cells of the head. */
  lemma ContainedIsCell(b: Box, head: seq<nat>, x: Index)
    requires InBounds(b, head) && Contains(b, x)
    ensures IsCell(x, head)
  {
    assert forall k :: 0 <= k < |head| ==> Upper(b, k) <= head[k];
  }

  lemma ExactMeansDisjoint(boxes: seq<Box>, head: seq<nat>)
    requires AllInBounds(boxes, head) && ExactlyCovers(boxes, head)
    ensures Disjoint(boxes)
  {
    forall i, j | 0 <= i < j < |boxes|
      ensures !SharesCell(boxes[i], boxes[j])
    {
      if SharesCell(boxes[i], boxes[j]) {
        var x :| Contains(boxes[i], x) && Contains(boxes[j], x);
        ContainedIsCell(boxes[i], head, x);
      }
    }
  }

  /** The counting argument: for in-bounds boxes, exactly covering the head is the same as
      sharing no cell and having the head's volume in total. */
  lemma ExactCoverByVolume(boxes: seq<Box>, head: seq<nat>)
    requires AllInBounds(boxes, head)
    ensures ExactlyCovers(boxes, head) <==> Disjoint(boxes) && TotalVolume(boxes) == Product(head)
    ensures Disjoint(boxes) ==> TotalVolume(boxes) <= Product(head)
  {
    if ExactlyCovers(boxes, head) { ExactMeansDisjoint(boxes, head); }
    if Disjoint(boxes) {
      UnionSize(boxes);
      InsideHead(boxes, head);
      CellCount(seq(|head|, _ => 0), head);
      SubsetSize(UnionCells(boxes), HeadCells(head));
      DisjointCover(boxes, head);
    }
  }

  /** Disjoint boxes cover exactly when their union is all of the head. */
  lemma DisjointCover(boxes: seq<Box>, head: seq<nat>)
    requires AllInBounds(boxes, head) && Disjoint(boxes)
    ensures ExactlyCovers(boxes, head) <==> UnionCells(boxes) == HeadCells(head)
  {
    InsideHead(boxes, head);
    if ExactlyCovers(boxes, head) {
      forall x | x in HeadCells(head)
        ensures x in UnionCells(boxes)
      {
        HeadCellsAreCells(head, x);
        UnionMember(boxes, x);
      }
    }
    if UnionCells(boxes) == HeadCells(head) {
      forall x | IsCell(x, head)
        ensures Covering(boxes, x) && Unshared(boxes, x)
      {
        HeadCellsAreCells(head, x);
        UnionMember(boxes, x);
        forall i, j | 0 <= i < j < |boxes|
          ensures !(Contains(boxes[i], x) && Contains(boxes[j], x))
        {
          assert !SharesCell(boxes[i], boxes[j]);
        }
      }
    }
  }

  // ---- main results ----

  lemma OverlapFreeIsDisjoint(boxes: seq<Box>, head: seq<U64>)
    requires AllInBounds(boxes, head)
    ensures OverlapFree(boxes) <==> Disjoint(boxes) && NoEmptyCrossing(boxes)
  {
    forall i, j | 0 <= i < j < |boxes|
      ensures BoxesOverlap(boxes[i], boxes[j]) <==> SharesCell(boxes[i], boxes[j]) || EmptyCrossing(boxes[i], boxes[j])
    {
      OverlapDecides(boxes[i], boxes[j], head);
    }
  }

  /** The format's non-overlap constraint on in-bounds boxes. It is more than sharing no index:
      an empty box must not cross another one either. */
  lemma NonOverlapDecides(boxes: seq<Box>, head: seq<U64>)
    requires AllInBounds(boxes, head)
    ensures NonOverlapping(boxes) <==> OverlapFree(boxes)
    ensures NonOverlapping(boxes) <==> Disjoint(boxes) && NoEmptyCrossing(boxes)
  {
    forall i, j | 0 <= i < j < |boxes|
      ensures IntervalsOverlap(boxes[i], boxes[j]) <==> BoxesOverlap(boxes[i], boxes[j])
    {
      OverlapIsInterval(boxes[i], boxes[j], head);
    }
    OverlapFreeIsDisjoint(boxes, head);
  }

  lemma {:induction false} TotalVolumePrefix(boxes: seq<Box>, i: nat)
    requires i <= |boxes|
    ensures TotalVolume(boxes[..i]) <= TotalVolume(boxes)
    decreases |boxes|
  {
    if i == |boxes| {
      assert boxes[..i] == boxes;
    } else {
      var n := |boxes| - 1;
      TotalVolumePrefix(boxes[..n], i);
      assert boxes[..n][..i] == boxes[..i];
    }
  }

  /** When the head's volume fits and no pair overlaps, every member volume and every partial
      sum fits as well: the gap check is always decided. */
  lemma GapCheckDecided(boxes: seq<Box>, head: seq<U64>)
    requires AllInBounds(boxes, head) && CountFits(head) && OverlapFree(boxes)
    ensures VolumesFit(boxes)
    ensures forall i :: 0 <= i <= |boxes| ==> TotalVolume(boxes[..i]) <= Product(head) < U64_LIMIT
  {
    OverlapFreeIsDisjoint(boxes, head);
    ExactCoverByVolume(boxes, head);
    assert head[..|head|] == head;
    forall i | 0 <= i <= |boxes|
      ensures TotalVolume(boxes[..i]) <= Product(head)
    {
      TotalVolumePrefix(boxes, i);
    }
    forall i | 0 <= i < |boxes|
      ensures CountFits(boxes[i].shape)
    {
      assert forall k :: 0 <= k < |head| ==> Upper(boxes[i], k) <= head[k];
      CountFitsMonotone(boxes[i].shape, head);
    }
  }

  /** Refinement: with a countable head the fast check accepts exactly the in-bounds box lists
      that tile the head, apart from those where an empty box lies across another box. */
  lemma AcceptedIffExactCover(boxes: seq<Box>, head: seq<U64>)
    requires AllInBounds(boxes, head) && CountFits(head)
    ensures Verdict(boxes, head) == Covered <==> ExactlyCovers(boxes, head) && NoEmptyCrossing(boxes)
  {
    OverlapFreeIsDisjoint(boxes, head);
    ExactCoverByVolume(boxes, head);
    if OverlapFree(boxes) { GapCheckDecided(boxes, head); }
  }

  /** With non-empty boxes the two forms agree, and a reported overlap is the first pair that
      really shares a cell. */
  lemma NonEmptyBoxesDecided(boxes: seq<Box>, head: seq<U64>)
    requires AllInBounds(boxes, head) && CountFits(head) && AllNonEmpty(boxes)
    ensures Verdict(boxes, head) == Covered <==> ExactlyCovers(boxes, head)
    ensures Verdict(boxes, head) == Gap <==> Disjoint(boxes) && !ExactlyCovers(boxes, head)
    ensures forall a: nat, b: nat :: Verdict(boxes, head) == Overlap(a, b) ==>
              && a < b < |boxes| && SharesCell(boxes[a], boxes[b])
              && forall i, j :: 0 <= i < j < |boxes| && (i < a || (i == a && j < b)) ==> !SharesCell(boxes[i], boxes[j])
  {
    AcceptedIffExactCover(boxes, head);
    OverlapFreeIsDisjoint(boxes, head);
    ExactCoverByVolume(boxes, head);
    if OverlapFree(boxes) {
      GapCheckDecided(boxes, head);
    } else {
      FirstOverlapExists(boxes);
      var a: nat, b: nat :| IsFirstOverlap(boxes, a, b) && Verdict(boxes, head) == Overlap(a, b);
      forall i, j | 0 <= i < j < |boxes|
        ensures BoxesOverlap(boxes[i], boxes[j]) <==> SharesCell(boxes[i], boxes[j])
      {
        OverlapDecides(boxes[i], boxes[j], head);
      }
    }
  }

  lemma NoCell(head: seq<U64>, k: nat, x: Index)
    requires k < |head| && head[k] == 0
    ensures !IsCell(x, head)
  {
  }

  /** The heads on which acceptance always means exact cover: those whose volume is counted,
      and those with no cell. On any other head a gap goes unseen. */
  lemma SoundHeads(head: seq<U64>)
    requires DYNAMIC !in head
    ensures (forall boxes :: AllInBounds(boxes, head) && Verdict(boxes, head) == Covered ==> ExactlyCovers(boxes, head))
            <==> CountFits(head) || 0 in head
  {
    if CountFits(head) {
      forall boxes | AllInBounds(boxes, head) && Verdict(boxes, head) == Covered
        ensures ExactlyCovers(boxes, head)
      {
        AcceptedIffExactCover(boxes, head);
      }
    } else if 0 in head {
      var k :| 0 <= k < |head| && head[k] == 0;
      forall x: Index ensures !IsCell(x, head) { NoCell(head, k, x); }
    } else {
      var none: seq<Box> := [];
      var origin: Index := seq(|head|, _ => 0);
      assert IsCell(origin, head) && !Covering(none, origin);
      assert AllInBounds(none, head) && Verdict(none, head) == Covered && !ExactlyCovers(none, head);
    }
  }

  /** A head too large to count, and no members at all: accepted, yet nothing is covered. */
  lemma UncountedHeadAcceptsGap()
    ensures var head := [0x8000_0000_0000_0000, 2];
            Verdict([], head) == Covered && !ExactlyCovers([], head)
  {
    var head := [0x8000_0000_0000_0000, 2];
    assert head[..2] == head && head[1..] == [2] && [2][1..] == [];
    assert Product([2]) == 2;
    assert Product(head[..2]) == U64_LIMIT;
    assert IsCell([0, 0], head) && !Covering([], [0, 0]);
  }

  /** A tiled head with an empty box in its middle is exactly covered, yet rejected. */
  lemma EmptyBoxInsideRejected()
    ensures var boxes := [Box([0], [4]), Box([2], [0])];
            && AllInBounds(boxes, [4]) && ExactlyCovers(boxes, [4])
            && EmptyCrossing(boxes[0], boxes[1]) && Verdict(boxes, [4]) == Overlap(0, 1)
  {
    var boxes := [Box([0], [4]), Box([2], [0])];
    forall x | IsCell(x, [4])
      ensures Covering(boxes, x) && Unshared(boxes, x)
    {
      assert Contains(boxes[0], x);
      assert boxes[1].shape[0] == 0;
    }
    assert StrictlyInside(boxes[1], boxes[0], 0);
    CrossingOverlaps(boxes[0], boxes[1], [4]);
    VerdictOverlap(boxes, [4], 0, 1);
  }

  // ---- the zero-copy lookup a partition stands for ----

  /** Translating a member-local index into the head. */
  ghost function ToHead(b: Box, local: Index): Index
    requires |local| == |b.offset|
  {
    seq(|local|, k requires 0 <= k < |local| => b.offset[k] as nat + local[k])
  }

  /** Select the member whose box contains `x`, and the index local to it. */
  ghost function Locate(boxes: seq<Box>, head: seq<nat>, x: Index): (p: (nat, Index))
    requires ExactlyCovers(boxes, head) && IsCell(x, head)
    ensures p.0 < |boxes| && Contains(boxes[p.0], x)
    ensures IsCell(p.1, boxes[p.0].shape) && ToHead(boxes[p.0], p.1) == x
  {
    assert Covering(boxes, x);
    var i: nat :| i < |boxes| && Contains(boxes[i], x);
    var local: Index := seq(|x|, k requires 0 <= k < |x| => x[k] - boxes[i].offset[k] as int);
    assert ToHead(boxes[i], local) == x;
    (i, local)
  }

  /** Lookup is a bijection between head indices and pairs of a member and one of its own
      indices: `Locate` and `ToHead` undo each other. */
  lemma LocateIsBijection(boxes: seq<Box>, head: seq<nat>, i: nat, local: Index)
    requires AllInBounds(boxes, head) && ExactlyCovers(boxes, head)
    requires i < |boxes| && IsCell(local, boxes[i].shape)
    ensures InBounds(boxes[i], head)
    ensures IsCell(ToHead(boxes[i], local), head)
    ensures Locate(boxes, head, ToHead(boxes[i], local)) == (i, local)
  {
    assert InBounds(boxes[i], head);
    var x := ToHead(boxes[i], local);
    assert Contains(boxes[i], x);
    ContainedIsCell(boxes[i], head, x);
    var p := Locate(boxes, head, x);
    assert Unshared(boxes, x);
    assert p.0 == i;
    assert |p.1| == |local|;
    forall k | 0 <= k < |local|
      ensures p.1[k] == local[k]
    {
      assert ToHead(boxes[i], p.1)[k] == x[k];
    }
    assert p.1 == local;
  }
}
