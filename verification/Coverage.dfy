/** The close-time check of a partition composite: pairwise interval tests, then a checked
    volume sum. The simple form it stands for is "every index of the head lies in exactly
    one member box". */
module Coverage {
  import opened Shapes
  import opened Boxes

  datatype CoverageResult = Covered | Overlap(a: nat, b: nat) | Gap

  function SaturatingAdd(x: U64, y: U64): (r: U64)
    ensures r == if x as int + y as int < U64_LIMIT then x as int + y as int else U64_LIMIT - 1
  {
    if x >= U64_LIMIT - y then U64_LIMIT - 1 else x + y
  }

  function MinLen(a: Box, b: Box): nat {
    Min(Min(|a.offset|, |a.shape|), Min(|b.offset|, |b.shape|))
  }

  /** The interval test: in every dimension each box starts before the other one ends. */
  predicate BoxesOverlap(a: Box, b: Box) {
    forall k :: 0 <= k < MinLen(a, b) ==>
      a.offset[k] < SaturatingAdd(b.offset[k], b.shape[k]) && b.offset[k] < SaturatingAdd(a.offset[k], a.shape[k])
  }

  // ---- specification ----

  ghost predicate AllInBounds(boxes: seq<Box>, head: seq<nat>) {
    forall i :: 0 <= i < |boxes| ==> InBounds(boxes[i], head)
  }

  ghost predicate AllNonEmpty(boxes: seq<Box>) {
    forall i :: 0 <= i < |boxes| ==> NonEmpty(boxes[i])
  }

  ghost predicate SharesCell(a: Box, b: Box) {
    exists x :: Contains(a, x) && Contains(b, x)
  }

  /** The simple form: every index of the head is in exactly one box. */
  ghost predicate ExactlyCovers(boxes: seq<Box>, head: seq<nat>) {
    forall x :: IsCell(x, head) ==> Covering(boxes, x) && Unshared(boxes, x)
  }

  ghost predicate Covering(boxes: seq<Box>, x: Index) {
    exists i :: 0 <= i < |boxes| && Contains(boxes[i], x)
  }

  ghost predicate Unshared(boxes: seq<Box>, x: Index) {
    forall i, j :: 0 <= i < j < |boxes| ==> !(Contains(boxes[i], x) && Contains(boxes[j], x))
  }

  ghost predicate OverlapFree(boxes: seq<Box>) {
    forall i, j :: 0 <= i < j < |boxes| ==> !BoxesOverlap(boxes[i], boxes[j])
  }

  /** `(a, b)` overlaps and no pair before it in lexicographic order does. */
  ghost predicate IsFirstOverlap(boxes: seq<Box>, a: nat, b: nat) {
    && a < b < |boxes| && BoxesOverlap(boxes[a], boxes[b])
    && forall i, j :: 0 <= i < j < |boxes| && (i < a || (i == a && j < b)) ==> !BoxesOverlap(boxes[i], boxes[j])
  }

  /** The unbounded sum of the member volumes. */
  ghost function TotalVolume(boxes: seq<Box>): nat {
    if boxes == [] then 0 else TotalVolume(boxes[..|boxes| - 1]) + Product(boxes[|boxes| - 1].shape)
  }

  /** The checked sum of checked volumes: absent as soon as one step does not fit. */
  ghost predicate VolumesFit(boxes: seq<Box>) {
    && (forall i :: 0 <= i < |boxes| ==> CountFits(boxes[i].shape))
    && (forall i :: 0 <= i <= |boxes| ==> TotalVolume(boxes[..i]) < U64_LIMIT)
  }

  /** The verdict on any list of boxes, in bounds or not. */
  ghost function Verdict(boxes: seq<Box>, head: seq<nat>): CoverageResult {
    if OverlapFree(boxes) then
      if CountFits(head) && VolumesFit(boxes) && TotalVolume(boxes) != Product(head) then Gap else Covered
    else
      FirstOverlapExists(boxes);
      var a: nat, b: nat :| IsFirstOverlap(boxes, a, b);
      Overlap(a, b)
  }

  lemma FirstOverlapExists(boxes: seq<Box>)
    requires !OverlapFree(boxes)
    ensures exists a: nat, b: nat :: IsFirstOverlap(boxes, a, b)
  {
    var i, j :| 0 <= i < j < |boxes| && BoxesOverlap(boxes[i], boxes[j]);
    SmallerOverlap(boxes, i, j);
  }

  lemma {:induction false} SmallerOverlap(boxes: seq<Box>, a: nat, b: nat)
    requires a < b < |boxes| && BoxesOverlap(boxes[a], boxes[b])
    ensures exists a: nat, b: nat :: IsFirstOverlap(boxes, a, b)
    decreases a, b
  {
    if !IsFirstOverlap(boxes, a, b) {
      var i, j :| 0 <= i < j < |boxes| && (i < a || (i == a && j < b)) && BoxesOverlap(boxes[i], boxes[j]);
      SmallerOverlap(boxes, i, j);
    }
  }

  lemma VerdictOverlap(boxes: seq<Box>, head: seq<nat>, a: nat, b: nat)
    requires IsFirstOverlap(boxes, a, b)
    ensures Verdict(boxes, head) == Overlap(a, b)
  {
    FirstOverlapExists(boxes);
    var i: nat, j: nat :| IsFirstOverlap(boxes, i, j) && Verdict(boxes, head) == Overlap(i, j);
  }

  // ---- the fast form ----

  /** The nested pair loop. */
  method FindOverlap(boxes: seq<Box>) returns (r: CoverageResult)
    ensures r.Overlap? ==> IsFirstOverlap(boxes, r.a, r.b)
    ensures !r.Overlap? ==> r.Covered? && OverlapFree(boxes)
  {
    var n := |boxes|;
    for i := 0 to n
      invariant forall k, j :: 0 <= k < i && k < j < n ==> !BoxesOverlap(boxes[k], boxes[j])
    {
      for j := i + 1 to n
        invariant forall l :: i < l < j ==> !BoxesOverlap(boxes[i], boxes[l])
      {
        if BoxesOverlap(boxes[i], boxes[j]) {
          return Overlap(i, j);
        }
      }
    }
    return Covered;
  }

  /** The volume accumulation: once a step fails it stays failed. */
  method CoveredVolume(boxes: seq<Box>) returns (covered: Option<U64>)
    ensures covered.Some? <==> VolumesFit(boxes)
    ensures covered.Some? ==> covered.value == TotalVolume(boxes)
  {
    covered := Some(0);
    for i := 0 to |boxes|
      invariant covered.Some? <==> VolumesFit(boxes[..i])
      invariant covered.Some? ==> covered.value == TotalVolume(boxes[..i])
    {
      var vol := ElementCount(boxes[i].shape);
      VolumesFitStep(boxes, i);
      if covered.Some? && vol.Some? {
        covered := if covered.value as int + vol.value as int < U64_LIMIT
                   then Some(covered.value as int + vol.value as int) else None;
      } else {
        covered := None;
      }
    }
    assert boxes[..|boxes|] == boxes;
  }

  lemma VolumesFitStep(boxes: seq<Box>, i: nat)
    requires i < |boxes|
    ensures TotalVolume(boxes[..i + 1]) == TotalVolume(boxes[..i]) + Product(boxes[i].shape)
    ensures VolumesFit(boxes[..i + 1]) <==>
            VolumesFit(boxes[..i]) && CountFits(boxes[i].shape) && TotalVolume(boxes[..i + 1]) < U64_LIMIT
  {
    var s := boxes[..i + 1];
    assert s[..i] == boxes[..i];
    assert s[..i + 1] == s;
    assert forall k :: 0 <= k <= i ==> s[..k] == boxes[..i][..k];
    assert forall k :: 0 <= k < i ==> s[k] == boxes[..i][k];
  }

  /** The whole close-time check. */
  method ValidatePartitionCoverage(boxes: seq<Box>, head: seq<U64>) returns (r: CoverageResult)
    ensures r == Verdict(boxes, head)
  {
    r := FindOverlap(boxes);
    if r.Overlap? {
      VerdictOverlap(boxes, head, r.a, r.b);
      return;
    }
    var total := ElementCount(head);
    if total.Some? {
      var covered := CoveredVolume(boxes);
      if covered.Some? && covered.value != total.value {
        return Gap;
      }
    }
    return Covered;
  }
}
