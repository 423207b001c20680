/** Why a composite is refused: every error of the validator, and exactly when it is the answer. */
module Rejections {
  import opened Shapes
  import opened Boxes
  import opened Coverage
  import opened Tiling
  import opened Descriptors
  import opened Validator
  import opened Composites

  // ---- one member ----

  /** `k` is the first dimension in which the member leaves its parent. */
  ghost predicate LeavesAt(m: Descriptor, dims: seq<U64>, k: nat) {
    && m.shard.Some? && m.shard.value.parentShape == dims
    && |m.shard.value.offset| == |m.shape| == |dims| && k < |dims|
    && Upper(BoxOf(m), k) > dims[k]
    && forall j :: 0 <= j < k ==> Upper(BoxOf(m), j) <= dims[j]
  }

  /** The number a composition rule is written with. */
  ghost function WrittenRule(rule: CompositionRule): U8 {
    if rule.Partition? then 1 else if rule.Overlay? then 2 else 3
  }

  /** What is wrong with the member at position `i`: where it lies comes before its type, and its
      type before its role. */
  ghost predicate Wrong(rule: CompositionRule, dims: seq<U64>, tag: U8, i: nat, m: Descriptor, e: Error) {
    match e
    case MemberMissingShard(j) => !rule.Group? && j == i && m.shard.None?
    case MemberParentShapeMismatch(j) =>
      !rule.Group? && j == i && m.shard.Some? && m.shard.value.parentShape != dims
    case ShardOutOfBounds(k, offset, size, parent) =>
      !rule.Group? && LeavesAt(m, dims, k) && offset == m.shard.value.offset[k] && size == m.shape[k] && parent == dims[k]
    case MemberTypeMismatch(j, member, head) =>
      !rule.Group? && j == i && HasBox(m, dims) && m.quantization.None? && member == m.typeTag != tag == head
    case MemberFlagMismatch(number, flag) =>
      && (rule.Group? || (HasBox(m, dims) && TypeAgrees(m, tag)))
      && number == WrittenRule(rule) && flag == m.role.Some? == !rule.Overlay?
    case OverlayBaseNotFirst =>
      && rule.Overlay? && HasBox(m, dims) && TypeAgrees(m, tag)
      && m.role.Some? && (m.role.value == Base) != (i == 0)
    case OverlayBaseNotSpanning =>
      && rule.Overlay? && HasBox(m, dims) && TypeAgrees(m, tag)
      && m.role == Some(Base) && i == 0 && !SpansAsBase(m, dims)
    case _ => false
  }

  /** Check 1 by its errors. */
  lemma BoxError(s: State, m: Descriptor, e: Error)
    requires m.WellFormed() && !HasDynamic(s.headDims) && !s.rule.Group?
    ensures ShardBox(s, m) == Err(e) <==>
            (e.MemberMissingShard? || e.MemberParentShapeMismatch? || e.ShardOutOfBounds?)
            && Wrong(s.rule, s.headDims, s.headTypeTag, s.seen, m, e)
  {
    if m.shard.Some? && m.shard.value.parentShape == s.headDims {
      var shard, b := m.shard.value, BoxOf(m);
      forall j | 0 <= j < |m.shape|
        ensures SaturatingAdd(shard.offset[j], m.shape[j]) <= shard.parentShape[j] <==> Upper(b, j) <= s.headDims[j]
      {
        assert s.headDims[j] in s.headDims;
      }
      var out := OutOfBounds(shard, m.shape, 0);
      if out.Some? {
        var k :| 0 <= k < |m.shape| && LeavesAt(m, s.headDims, k)
                 && out.value == ShardOutOfBounds(k, shard.offset[k], m.shape[k], shard.parentShape[k]);
      }
    }
  }

  /** One push: it is refused with an error exactly when that is what is wrong with the member. */
  lemma AdmitError(s: State, m: Descriptor, e: Error)
    requires m.WellFormed() && (s.rule.Group? || !HasDynamic(s.headDims))
    ensures Admit(s, m) == Err(e) <==> Wrong(s.rule, s.headDims, s.headTypeTag, s.seen, m, e)
  {
    if !s.rule.Group? {
      ShardBoxAccepts(s, m);
      BoxError(s, m, e);
      if ShardBox(s, m).Err? { BoxError(s, m, ShardBox(s, m).error); }
    }
  }

  // ---- the first member refused ----

  /** A head that can be validated at all. */
  ghost predicate Usable(head: Descriptor) {
    head.layout.Composite? && (head.layout.rule.Group? || !HasDynamic(head.shape))
  }

  /** The members before position `i` fit, the one there does not. */
  ghost predicate FirstUnfit(head: Descriptor, members: seq<Descriptor>, i: nat) {
    && Usable(head) && i < |members|
    && MembersFit(head, members[..i])
    && !MemberFits(head.layout.rule, head.shape, head.typeTag, i, members[i])
  }

  lemma {:induction false} FirstUnfitExists(head: Descriptor, members: seq<Descriptor>) returns (i: nat)
    requires Usable(head) && !MembersFit(head, members)
    ensures FirstUnfit(head, members, i)
  {
    var n := |members| - 1;
    if MembersFit(head, members[..n]) {
      i := n;
    } else {
      i := FirstUnfitExists(head, members[..n]);
      assert members[..n][..i] == members[..i];
    }
  }

  lemma FirstUnfitOnly(head: Descriptor, members: seq<Descriptor>, i: nat, j: nat)
    requires FirstUnfit(head, members, i) && FirstUnfit(head, members, j)
    ensures i == j
  {
    assert forall k :: 0 <= k < j ==> members[..j][k] == members[k];
    assert forall k :: 0 <= k < i ==> members[..i][k] == members[k];
  }

  /** A run is refused with what is wrong with its first member that does not fit. */
  lemma UnfitError(head: Descriptor, members: seq<Descriptor>, i: nat, e: Error)
    requires AllWellFormed(members) && FirstUnfit(head, members, i)
    ensures Validate(head, members) == Err(e) <==> Wrong(head.layout.rule, head.shape, head.typeTag, i, members[i], e)
  {
    var s := Init(head).value;
    RunDecides(head, members[..i]);
    var before := Run(s, members[..i]).value;
    AdmitDecides(before, members[i]);
    AdmitError(before, members[i], e);
    assert members[..i + 1][..i] == members[..i];
    RunFailsOn(s, members, i + 1);
  }

  // ---- closing ----

  /** `(a, b)` overlaps by the format's formula, and no pair before it does. */
  ghost predicate FirstCrossing(boxes: seq<Box>, a: nat, b: nat) {
    && a < b < |boxes| && IntervalsOverlap(boxes[a], boxes[b])
    && forall i, j :: 0 <= i < j < |boxes| && (i < a || (i == a && j < b)) ==> !IntervalsOverlap(boxes[i], boxes[j])
  }

  ghost predicate SomeUncovered(boxes: seq<Box>, head: seq<nat>) {
    exists x: Index :: IsCell(x, head) && !Covering(boxes, x)
  }

  /** What is wrong with fitting members as a whole: the count comes first, overlap before a gap. */
  ghost predicate WrongTogether(head: Descriptor, members: seq<Descriptor>, e: Error)
    requires head.layout.Composite? && MembersFit(head, members)
  {
    var agrees := |members| % U32_LIMIT == head.layout.memberCount;
    match e
    case MemberCountMismatch(declared, actual) =>
      !agrees && declared == head.layout.memberCount && actual == |members|
    case OverlayEmpty => agrees && head.layout.rule.Overlay? && members == []
    case PartitionOverlap(a, b) =>
      agrees && head.layout.rule.Partition? && AllShards(members) && FirstCrossing(BoxesOf(members), a, b)
    case PartitionGap =>
      && agrees && head.layout.rule.Partition? && AllShards(members)
      && NonOverlapping(BoxesOf(members)) && CountFits(head.shape)
      && SomeUncovered(BoxesOf(members), head.shape)
    case _ => false
  }

  lemma CrossingIsOverlap(boxes: seq<Box>, head: seq<U64>, a: nat, b: nat)
    requires AllInBounds(boxes, head)
    ensures FirstCrossing(boxes, a, b) <==> IsFirstOverlap(boxes, a, b)
  {
    forall i, j | 0 <= i < j < |boxes|
      ensures IntervalsOverlap(boxes[i], boxes[j]) <==> BoxesOverlap(boxes[i], boxes[j])
    {
      OverlapIsInterval(boxes[i], boxes[j], head);
    }
  }

  /** An overlap is reported exactly for the first pair. */
  lemma OverlapReported(boxes: seq<Box>, head: seq<U64>, a: nat, b: nat)
    requires AllInBounds(boxes, head)
    ensures Verdict(boxes, head) == Overlap(a, b) <==> FirstCrossing(boxes, a, b)
  {
    CrossingIsOverlap(boxes, head, a, b);
    if FirstCrossing(boxes, a, b) { VerdictOverlap(boxes, head, a, b); }
    if Verdict(boxes, head) == Overlap(a, b) { FirstOverlapExists(boxes); }
  }

  /** A gap is reported exactly when no pair overlaps, the volume is counted and an index of the head
      is in no box. */
  lemma GapReported(boxes: seq<Box>, head: seq<U64>)
    requires AllInBounds(boxes, head)
    ensures Verdict(boxes, head) == Gap <==>
            NonOverlapping(boxes) && CountFits(head) && SomeUncovered(boxes, head)
  {
    NonOverlapDecides(boxes, head);
    ExactCoverByVolume(boxes, head);
    if NonOverlapping(boxes) {
      DisjointMisses(boxes, head);
      if CountFits(head) { GapCheckDecided(boxes, head); }
    }
  }

  /** Boxes that share no index fail to cover exactly by missing one. */
  lemma DisjointMisses(boxes: seq<Box>, head: seq<nat>)
    requires Disjoint(boxes)
    ensures ExactlyCovers(boxes, head) <==> !SomeUncovered(boxes, head)
  {
    forall x
      ensures Unshared(boxes, x)
    {
      forall i, j | 0 <= i < j < |boxes|
        ensures !(Contains(boxes[i], x) && Contains(boxes[j], x))
      {
        assert !SharesCell(boxes[i], boxes[j]);
      }
    }
  }

  /** The coverage part of closing. */
  lemma CoverageError(head: Descriptor, members: seq<Descriptor>, t: State, e: Error)
    requires head.layout.Composite? && head.layout.rule.Partition? && MembersFit(head, members)
    requires Tracks(t, head, members) && |members| % U32_LIMIT == head.layout.memberCount
    ensures Close(t) == Err(e) <==> WrongTogether(head, members, e)
  {
    hide Verdict, FirstCrossing, NonOverlapping, SomeUncovered, MembersFit, CountFits;
    PartitionShards(head, members);
    PartitionInBounds(head, members);
    GapReported(BoxesOf(members), head.shape);
    if e.PartitionOverlap? { OverlapReported(BoxesOf(members), head.shape, e.a, e.b); }
  }

  lemma CloseError(head: Descriptor, members: seq<Descriptor>, e: Error)
    requires AllWellFormed(members) && Usable(head) && MembersFit(head, members)
    ensures Validate(head, members) == Err(e) <==> WrongTogether(head, members, e)
  {
    hide Verdict, FirstCrossing, NonOverlapping, SomeUncovered, MembersFit, CountFits, Run;
    RunDecides(head, members);
    if head.layout.rule.Partition? && |members| % U32_LIMIT == head.layout.memberCount {
      CoverageError(head, members, Run(Init(head).value, members).value, e);
    }
  }

  // ---- every error ----

  /** Why a head with these members is refused with this error. */
  ghost predicate Explained(head: Descriptor, members: seq<Descriptor>, e: Error) {
    || (!Usable(head) && e == InvalidLayout)
    || (exists i: nat :: FirstUnfit(head, members, i) && Wrong(head.layout.rule, head.shape, head.typeTag, i, members[i], e))
    || (Usable(head) && MembersFit(head, members) && WrongTogether(head, members, e))
  }

  /** For every head, list of members and error: the error is the answer if and only if it is
      explained. An explanation speaks of the first member that does not fit, or of all of them. */
  lemma ErrorExplained(head: Descriptor, members: seq<Descriptor>, e: Error)
    requires AllWellFormed(members)
    ensures Validate(head, members) == Err(e) <==> Explained(head, members, e)
  {
    if Usable(head) {
      if MembersFit(head, members) {
        CloseError(head, members, e);
        forall i: nat
          ensures !FirstUnfit(head, members, i)
        {
        }
      } else {
        var i := FirstUnfitExists(head, members);
        UnfitError(head, members, i, e);
        forall j: nat | FirstUnfit(head, members, j)
          ensures j == i
        {
          FirstUnfitOnly(head, members, i, j);
        }
      }
    }
  }
}
