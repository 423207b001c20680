/** The stateful validator of a composite head's members: per-member checks as the members
    arrive, close-time checks when all have. */
module Validator {
  import opened Shapes
  import opened Boxes
  import opened Coverage
  import opened Descriptors

  const MAX_COMPOSITE_DEPTH: U8 := 8

  /** The validator's fields, as a value. */
  datatype State = State(
    rule: CompositionRule,
    declared: U32,
    headDims: seq<U64>,
    headTypeTag: U8,
    seen: nat,
    boxes: seq<Box>)

  // ---- per-member checks ----

  /** The first dimension from `k` on where the shard leaves its parent. */
  function OutOfBounds(shard: Shard, dims: seq<U64>, k: nat): (r: Option<Error>)
    requires |shard.parentShape| == |shard.offset| == |dims|
    requires k <= |dims|
    ensures r.None? <==> forall j :: k <= j < |dims| ==> SaturatingAdd(shard.offset[j], dims[j]) <= shard.parentShape[j]
    ensures r.Some? ==>
              exists j :: && k <= j < |dims|
                          && r.value == ShardOutOfBounds(j, shard.offset[j], dims[j], shard.parentShape[j])
                          && SaturatingAdd(shard.offset[j], dims[j]) > shard.parentShape[j]
                          && forall i :: k <= i < j ==> SaturatingAdd(shard.offset[i], dims[i]) <= shard.parentShape[i]
    decreases |dims| - k
  {
    if k == |dims| then None
    else if SaturatingAdd(shard.offset[k], dims[k]) > shard.parentShape[k] then
      Some(ShardOutOfBounds(k, shard.offset[k], dims[k], shard.parentShape[k]))
    else OutOfBounds(shard, dims, k + 1)
  }

  /** Check 1: a shard section with the head's shape as parent, and a box inside it. */
  function ShardBox(s: State, m: Descriptor): Result<Shard>
    requires m.WellFormed()
  {
    if m.shard.None? then Err(MemberMissingShard(s.seen))
    else if m.shard.value.parentShape != s.headDims then Err(MemberParentShapeMismatch(s.seen))
    else match OutOfBounds(m.shard.value, m.shape, 0)
      case Some(e) => Err(e)
      case None => Ok(m.shard.value)
  }

  /** Check 2: the member's type is the head's, unless the member is quantized. */
  function CheckMemberType(s: State, m: Descriptor): Result<()> {
    if m.quantization.Some? || m.typeTag == s.headTypeTag then Ok(())
    else Err(MemberTypeMismatch(s.seen, m.typeTag, s.headTypeTag))
  }

  predicate AllZero(xs: seq<U64>) {
    forall k :: 0 <= k < |xs| ==> xs[k] == 0
  }

  /** Check 4: the first overlay member is a base spanning the head, every other a correction. */
  function CheckOverlayMemberRole(s: State, m: Descriptor): Result<()> {
    if m.role.None? then Err(MemberFlagMismatch(s.rule.RuleByte(), false))
    else if s.seen == 0 then
      if m.role.value != Base then Err(OverlayBaseNotFirst)
      else if m.shard.None? then Err(MemberMissingShard(s.seen))
      else if AllZero(m.shard.value.offset) && m.shape == s.headDims then Ok(())
      else Err(OverlayBaseNotSpanning)
    else if m.role.value != Correction then Err(OverlayBaseNotFirst)
    else Ok(())
  }

  /** Check 5: partition and group members carry no role. */
  function RejectCompositeMemberFlag(s: State, m: Descriptor): Result<()> {
    if m.role.Some? then Err(MemberFlagMismatch(s.rule.RuleByte(), true)) else Ok(())
  }

  // ---- the state machine ----

  function Init(head: Descriptor): Result<State> {
    if !head.layout.Composite? then Err(InvalidLayout)
    else if !head.layout.rule.Group? && HasDynamic(head.shape) then Err(InvalidLayout)
    else Ok(State(head.layout.rule, head.layout.memberCount, head.shape, head.typeTag, 0, []))
  }

  /** All the checks of one member, in the order the rule applies them. */
  function MemberVerdict(s: State, m: Descriptor): Result<()>
    requires m.WellFormed()
  {
    match s.rule
    case Partition =>
      var box := ShardBox(s, m);
      if box.Err? then Err(box.error) else
      var ty := CheckMemberType(s, m);
      if ty.Err? then ty else RejectCompositeMemberFlag(s, m)
    case Overlay(_) =>
      var box := ShardBox(s, m);
      if box.Err? then Err(box.error) else
      var ty := CheckMemberType(s, m);
      if ty.Err? then ty else CheckOverlayMemberRole(s, m)
    case Group => RejectCompositeMemberFlag(s, m)
  }

  ghost function Admit(s: State, m: Descriptor): Result<State>
    requires m.WellFormed()
  {
    var v := MemberVerdict(s, m);
    if v.Err? then Err(v.error)
    else Ok(s.(seen := s.seen + 1, boxes := if s.rule.Partition? then s.boxes + [BoxOf(m)] else s.boxes))
  }

  ghost function Close(s: State): Result<()> {
    if s.seen % U32_LIMIT != s.declared then Err(MemberCountMismatch(s.declared, s.seen))
    else match s.rule
      case Partition =>
        (match Verdict(s.boxes, s.headDims)
         case Covered => Ok(())
         case Gap => Err(PartitionGap)
         case Overlap(a, b) => Err(PartitionOverlap(a, b)))
      case Overlay(_) => if s.seen == 0 then Err(OverlayEmpty) else Ok(())
      case Group => Ok(())
  }

  /** Admission and closing on the state as a value, for an owner that keeps validators in a
      collection. */
  function AfterMember(s: State, m: Descriptor): (t: State)
    requires m.WellFormed() && MemberVerdict(s, m).Ok?
    ensures Admit(s, m) == Ok(t)
  {
    s.(seen := s.seen + 1,
       boxes := if s.rule.Partition? then s.boxes + [Box(m.shard.value.offset, m.shape)] else s.boxes)
  }

  method CloseState(s: State) returns (r: Result<()>)
    ensures r == Close(s)
  {
    if s.seen % U32_LIMIT != s.declared {
      return Err(MemberCountMismatch(s.declared, s.seen));
    }
    match s.rule {
      case Partition =>
        var verdict := ValidatePartitionCoverage(s.boxes, s.headDims);
        match verdict {
          case Covered => r := Ok(());
          case Gap => r := Err(PartitionGap);
          case Overlap(a, b) => r := Err(PartitionOverlap(a, b));
        }
      case Overlay(_) =>
        r := if s.seen == 0 then Err(OverlayEmpty) else Ok(());
      case Group =>
        r := Ok(());
    }
  }

  /** The validator object: `PushMember` and `Finish` compute exactly the state machine. */
  class CompositeValidator {
    const rule: CompositionRule
    const declaredMemberCount: U32
    const headShapeDims: seq<U64>
    const headTypeTag: U8
    var membersSeen: nat
    var partitionBoxes: seq<Box>

    ghost function Current(): State
      reads this
    {
      State(rule, declaredMemberCount, headShapeDims, headTypeTag, membersSeen, partitionBoxes)
    }

    function AsValue(): (s: State)
      reads this
      ensures s == Current()
    {
      State(rule, declaredMemberCount, headShapeDims, headTypeTag, membersSeen, partitionBoxes)
    }

    constructor (head: Descriptor)
      requires Init(head).Ok?
      ensures Current() == Init(head).value
    {
      rule := head.layout.rule;
      declaredMemberCount := head.layout.memberCount;
      headShapeDims := head.shape;
      headTypeTag := head.typeTag;
      membersSeen := 0;
      partitionBoxes := [];
    }

    /** A failing push changes nothing at all. */
    method PushMember(m: Descriptor) returns (r: Result<()>)
      requires m.WellFormed()
      modifies this
      ensures r.Ok? <==> Admit(old(Current()), m).Ok?
      ensures r.Ok? ==> Current() == Admit(old(Current()), m).value
      ensures r.Err? ==> Current() == old(Current()) && Admit(old(Current()), m) == Err(r.error)
    {
      r := MemberVerdict(AsValue(), m);
      if r.Err? {
        return;
      }
      if rule.Partition? {
        partitionBoxes := partitionBoxes + [Box(m.shard.value.offset, m.shape)];
      }
      membersSeen := membersSeen + 1;
    }

    method Finish() returns (r: Result<()>)
      ensures r == Close(Current())
    {
      r := CloseState(AsValue());
    }
  }
}
