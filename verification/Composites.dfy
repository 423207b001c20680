/** Whole validator runs: what an accepted composite is guaranteed to be. */
module Composites {
  import opened Shapes
  import opened Boxes
  import opened Coverage
  import opened Tiling
  import opened Descriptors
  import opened Validator

  ghost predicate AllWellFormed(members: seq<Descriptor>) {
    forall i :: 0 <= i < |members| ==> members[i].WellFormed()
  }

  /** A run that stops at the first rejected member. */
  ghost function Run(s: State, members: seq<Descriptor>): Result<State>
    requires AllWellFormed(members)
  {
    if members == [] then Ok(s) else
    var before := Run(s, members[..|members| - 1]);
    if before.Err? then before else Admit(before.value, members[|members| - 1])
  }

  /** A run whose driver goes on after a rejected member. */
  ghost function RunOn(s: State, members: seq<Descriptor>): State
    requires AllWellFormed(members)
  {
    if members == [] then s else
    var before := RunOn(s, members[..|members| - 1]);
    var r := Admit(before, members[|members| - 1]);
    if r.Ok? then r.value else before
  }

  /** The members such a driver got accepted, in order. */
  ghost function Accepted(s: State, members: seq<Descriptor>): (kept: seq<Descriptor>)
    requires AllWellFormed(members)
    ensures AllWellFormed(kept)
  {
    if members == [] then [] else
    var n := |members| - 1;
    var kept := Accepted(s, members[..n]);
    if Admit(RunOn(s, members[..n]), members[n]).Ok? then kept + [members[n]] else kept
  }

  /** Rejected members leave no trace: the state, and with it the closing verdict, is the one
      of the accepted members alone. */
  lemma {:induction false} OnlyAcceptedCount(s: State, members: seq<Descriptor>)
    requires AllWellFormed(members)
    ensures Run(s, Accepted(s, members)) == Ok(RunOn(s, members))
    ensures Close(Run(s, Accepted(s, members)).value) == Close(RunOn(s, members))
  {
    if members != [] {
      var n := |members| - 1;
      OnlyAcceptedCount(s, members[..n]);
      var kept := Accepted(s, members[..n]);
      assert (kept + [members[n]])[..|kept|] == kept;
    }
  }

  // ---- the declarative form of acceptance ----

  /** The member carries a shard of this head and its box lies inside the head. */
  ghost predicate HasBox(m: Descriptor, dims: seq<U64>) {
    m.shard.Some? && m.shard.value.parentShape == dims && InBounds(BoxOf(m), dims)
  }

  /** The type check, which leaves quantized members out. */
  ghost predicate TypeAgrees(m: Descriptor, tag: U8) {
    m.quantization.Some? || m.typeTag == tag
  }

  /** An overlay base: it starts at the origin and has the head's own shape. */
  ghost predicate SpansAsBase(m: Descriptor, dims: seq<U64>) {
    m.role == Some(Base) && m.shard.Some? && m.shape == dims && AllZero(m.shard.value.offset)
  }

  /** What the rule asks of the member at position `i`. */
  ghost predicate MemberFits(rule: CompositionRule, dims: seq<U64>, tag: U8, i: nat, m: Descriptor) {
    match rule
    case Partition => HasBox(m, dims) && TypeAgrees(m, tag) && m.role == None
    case Overlay(_) => HasBox(m, dims) && TypeAgrees(m, tag) &&
                       if i == 0 then SpansAsBase(m, dims) else m.role == Some(Correction)
    case Group => m.role == None
  }

  ghost predicate MembersFit(head: Descriptor, members: seq<Descriptor>)
    requires head.layout.Composite?
  {
    forall i :: 0 <= i < |members| ==> MemberFits(head.layout.rule, head.shape, head.typeTag, i, members[i])
  }

  ghost function BoxesOf(members: seq<Descriptor>): (boxes: seq<Box>)
    requires forall i :: 0 <= i < |members| ==> members[i].shard.Some?
    ensures |boxes| == |members|
    ensures forall i :: 0 <= i < |members| ==> boxes[i] == BoxOf(members[i])
  {
    seq(|members|, i requires 0 <= i < |members| => BoxOf(members[i]))
  }

  /** What the validator lets through: members that fit a usable head, at least one of them for
      an overlay, a count that agrees in its low 32 bits, and for a partition boxes that share no
      index, with no empty one across another, and that cover the head if its volume can be
      counted. */
  ghost predicate Passes(head: Descriptor, members: seq<Descriptor>) {
    && head.layout.Composite?
    && (head.layout.rule.Group? || !HasDynamic(head.shape))
    && MembersFit(head, members)
    && |members| % U32_LIMIT == head.layout.memberCount
    && (head.layout.rule.Overlay? ==> members != [])
    && (head.layout.rule.Partition? ==>
          && Disjoint(BoxesOf(members)) && NoEmptyCrossing(BoxesOf(members))
          && (CountFits(head.shape) ==> ExactlyCovers(BoxesOf(members), head.shape)))
  }

  /** The machine's answer for a head and a list of members. */
  ghost function Validate(head: Descriptor, members: seq<Descriptor>): Result<()>
    requires AllWellFormed(members)
  {
    var s := Init(head);
    if s.Err? then Err(s.error) else
    var t := Run(s.value, members);
    if t.Err? then Err(t.error) else Close(t.value)
  }

  /** A static head's word arithmetic does not saturate: check 1 is the plain bound. */
  lemma ShardBoxAccepts(s: State, m: Descriptor)
    requires m.WellFormed() && !HasDynamic(s.headDims)
    ensures ShardBox(s, m).Ok? <==> HasBox(m, s.headDims)
    ensures ShardBox(s, m).Ok? ==> ShardBox(s, m).value == m.shard.value
  {
    if m.shard.Some? && m.shard.value.parentShape == s.headDims {
      var dims, shard, b := m.shape, m.shard.value, BoxOf(m);
      forall j | 0 <= j < |dims|
        ensures SaturatingAdd(shard.offset[j], dims[j]) <= shard.parentShape[j] <==> Upper(b, j) <= s.headDims[j]
      {
        assert s.headDims[j] in s.headDims;
      }
    }
  }

  lemma AdmitDecides(s: State, m: Descriptor)
    requires m.WellFormed() && (s.rule.Group? || !HasDynamic(s.headDims))
    ensures Admit(s, m).Ok? <==> MemberFits(s.rule, s.headDims, s.headTypeTag, s.seen, m)
  {
    if !s.rule.Group? { ShardBoxAccepts(s, m); }
  }

  /** The state after a successful run, in terms of the members alone. */
  ghost predicate Tracks(s: State, head: Descriptor, members: seq<Descriptor>)
    requires head.layout.Composite?
  {
    && s.rule == head.layout.rule && s.declared == head.layout.memberCount
    && s.headDims == head.shape && s.headTypeTag == head.typeTag
    && s.seen == |members|
    && (s.rule.Partition? ==>
          && (forall i :: 0 <= i < |members| ==> members[i].shard.Some?)
          && s.boxes == BoxesOf(members))
    && (!s.rule.Partition? ==> s.boxes == [])
  }

  lemma {:induction false} RunDecides(head: Descriptor, members: seq<Descriptor>)
    requires AllWellFormed(members) && Init(head).Ok?
    ensures Run(Init(head).value, members).Ok? <==> MembersFit(head, members)
    ensures Run(Init(head).value, members).Ok? ==> Tracks(Run(Init(head).value, members).value, head, members)
  {
    if members != [] {
      var n := |members| - 1;
      var rest := members[..n];
      RunDecides(head, rest);
      var before := Run(Init(head).value, rest);
      if before.Ok? {
        AdmitDecides(before.value, members[n]);
        assert members == rest + [members[n]];
        assert MembersFit(head, members) <==>
               MemberFits(head.layout.rule, head.shape, head.typeTag, n, members[n]);
        if MembersFit(head, members) && head.layout.rule.Partition? {
          assert BoxesOf(members) == BoxesOf(rest) + [BoxOf(members[n])];
        }
      } else {
        var i :| 0 <= i < n && !MemberFits(head.layout.rule, head.shape, head.typeTag, i, rest[i]);
        assert members[i] == rest[i];
      }
    }
  }

  /** What every run keeps, whatever was pushed and whichever pushes failed: the state is that of
      the accepted members, all of which fit, and every stored box is in bounds. */
  lemma RunInvariant(head: Descriptor, members: seq<Descriptor>)
    requires AllWellFormed(members) && Init(head).Ok?
    ensures
      var s := RunOn(Init(head).value, members);
      var kept := Accepted(Init(head).value, members);
      && MembersFit(head, kept) && Tracks(s, head, kept)
      && |s.boxes| == (if head.layout.rule.Partition? then s.seen else 0)
      && forall i :: 0 <= i < |s.boxes| ==> InBounds(s.boxes[i], head.shape)
  {
    var kept := Accepted(Init(head).value, members);
    OnlyAcceptedCount(Init(head).value, members);
    RunDecides(head, kept);
    if head.layout.rule.Partition? {
      PartitionInBounds(head, kept);
    }
  }

  /** The coverage verdict on a partition, said of indices: the two cases of a head whose volume
      is counted and of one whose volume is not. */
  lemma CoveredDecides(head: Descriptor, members: seq<Descriptor>)
    requires head.layout.Composite? && head.layout.rule.Partition? && MembersFit(head, members)
    ensures Verdict(BoxesOf(members), head.shape) == Covered <==>
            && Disjoint(BoxesOf(members)) && NoEmptyCrossing(BoxesOf(members))
            && (CountFits(head.shape) ==> ExactlyCovers(BoxesOf(members), head.shape))
  {
    var boxes := BoxesOf(members);
    PartitionInBounds(head, members);
    OverlapFreeIsDisjoint(boxes, head.shape);
    if CountFits(head.shape) {
      AcceptedIffExactCover(boxes, head.shape);
      ExactCoverByVolume(boxes, head.shape);
    }
  }

  /** What the state machine accepts, for every head and every list of members, with no state, no
      order of checks and no fast test on the right-hand side. */
  lemma ValidateDecides(head: Descriptor, members: seq<Descriptor>)
    requires AllWellFormed(members)
    ensures Validate(head, members) == Ok(()) <==> Passes(head, members)
  {
    if Init(head).Ok? {
      RunDecides(head, members);
      if MembersFit(head, members) && head.layout.rule.Partition? { CoveredDecides(head, members); }
    }
  }

  // ---- validity as the format defines it ----

  /** A composite head owns no data and is not marked as a member. */
  ghost predicate ProperHead(d: Descriptor) {
    d.layout.Composite? ==> d.role == None && d.quantization == None && d.buffers == []
  }

  /** What the format asks of the member at position `i`: its decoded type counts. */
  ghost predicate MemberValid(rule: CompositionRule, dims: seq<U64>, tag: U8, i: nat, m: Descriptor) {
    match rule
    case Partition => HasBox(m, dims) && m.DecodedTag() == tag && m.role == None
    case Overlay(_) => HasBox(m, dims) && m.DecodedTag() == tag &&
                       if i == 0 then SpansAsBase(m, dims) else m.role == Some(Correction)
    case Group => m.role == None
  }

  ghost predicate MembersValid(head: Descriptor, members: seq<Descriptor>)
    requires head.layout.Composite?
  {
    forall i :: 0 <= i < |members| ==>
      ProperHead(members[i]) && MemberValid(head.layout.rule, head.shape, head.typeTag, i, members[i])
  }

  /** A valid composite, one level of it: a proper head with a definite count, as many valid members
      as it says, one at least for an overlay; and a partition meets both constraints, exact cover
      and non-overlap. */
  ghost predicate ValidComposite(head: Descriptor, members: seq<Descriptor>) {
    && head.layout.Composite? && ProperHead(head)
    && (head.layout.rule.Group? || !HasDynamic(head.shape))
    && |members| == head.layout.memberCount != RESERVED_COUNT
    && MembersValid(head, members)
    && (head.layout.rule.Overlay? ==> members != [])
    && (head.layout.rule.Partition? ==>
          ExactlyCovers(BoxesOf(members), head.shape) && NonOverlapping(BoxesOf(members)))
  }

  ghost predicate AllShards(members: seq<Descriptor>) {
    forall i :: 0 <= i < |members| ==> members[i].shard.Some?
  }

  /** What the validator does not look at: all 32 bits and more of the count, the reserved count,
      what heads carry, and the decoded type of quantized members. */
  ghost predicate Unlooked(head: Descriptor, members: seq<Descriptor>) {
    && |members| < RESERVED_COUNT
    && ProperHead(head) && (forall i :: 0 <= i < |members| ==> ProperHead(members[i]))
    && (head.layout.Composite? && !head.layout.rule.Group? ==>
          forall i :: 0 <= i < |members| && members[i].quantization.Some? ==> members[i].quantization.value == head.typeTag)
  }

  /** The volumes of a partition's members add up to the head's, however large. */
  ghost predicate VolumesAddUp(head: Descriptor, members: seq<Descriptor>) {
    head.layout.Composite? && head.layout.rule.Partition? && AllShards(members) ==>
      TotalVolume(BoxesOf(members)) == Product(head.shape)
  }

  /** Members that fit and whose decoded types agree are the valid ones. */
  lemma FitIsValid(head: Descriptor, members: seq<Descriptor>)
    requires head.layout.Composite? && Unlooked(head, members)
    ensures MembersValid(head, members) <==> MembersFit(head, members)
  {
    forall i | 0 <= i < |members|
      ensures MemberValid(head.layout.rule, head.shape, head.typeTag, i, members[i]) <==>
              MemberFits(head.layout.rule, head.shape, head.typeTag, i, members[i])
    {
    }
  }

  lemma ValidFits(head: Descriptor, members: seq<Descriptor>)
    requires ValidComposite(head, members)
    ensures Unlooked(head, members) && MembersFit(head, members)
  {
    forall i | 0 <= i < |members|
      ensures ProperHead(members[i])
      ensures MemberFits(head.layout.rule, head.shape, head.typeTag, i, members[i])
      ensures !head.layout.rule.Group? && members[i].quantization.Some? ==> members[i].quantization.value == head.typeTag
    {
      assert MemberValid(head.layout.rule, head.shape, head.typeTag, i, members[i]);
    }
  }

  lemma PartitionShards(head: Descriptor, members: seq<Descriptor>)
    requires head.layout.Composite? && head.layout.rule.Partition? && MembersFit(head, members)
    ensures AllShards(members)
  {
    forall i | 0 <= i < |members|
      ensures members[i].shard.Some?
    {
      assert MemberFits(head.layout.rule, head.shape, head.typeTag, i, members[i]);
    }
  }

  /** The coverage part: both constraints hold exactly when the boxes pass and the volumes add up. */
  lemma CoverPart(head: Descriptor, members: seq<Descriptor>)
    requires head.layout.Composite? && head.layout.rule.Partition? && MembersFit(head, members)
    ensures ExactlyCovers(BoxesOf(members), head.shape) && NonOverlapping(BoxesOf(members)) <==>
            && Disjoint(BoxesOf(members)) && NoEmptyCrossing(BoxesOf(members))
            && TotalVolume(BoxesOf(members)) == Product(head.shape)
  {
    PartitionInBounds(head, members);
    NonOverlapDecides(BoxesOf(members), head.shape);
    ExactCoverByVolume(BoxesOf(members), head.shape);
  }

  /** For every head and every list of members: validity is acceptance together with exactly what
      the validator leaves out. So every valid composite is accepted. */
  lemma ValidExactly(head: Descriptor, members: seq<Descriptor>)
    requires AllWellFormed(members)
    ensures ValidComposite(head, members) <==>
            Validate(head, members) == Ok(()) && Unlooked(head, members) && VolumesAddUp(head, members)
  {
    ValidateDecides(head, members);
    if ValidComposite(head, members) { ValidFits(head, members); }
    if head.layout.Composite? && Unlooked(head, members) { FitIsValid(head, members); }
    if head.layout.Composite? && head.layout.rule.Partition? && MembersFit(head, members) {
      PartitionShards(head, members);
      CoverPart(head, members);
    }
  }

  /** The heads on which the volumes of an accepted partition always add up: counted ones, and those
      without an index. */
  lemma AcceptedAddsUp(head: Descriptor, members: seq<Descriptor>)
    requires AllWellFormed(members) && Validate(head, members) == Ok(())
    requires head.layout.rule.Partition? ==> CountFits(head.shape) || 0 in head.shape
    ensures VolumesAddUp(head, members)
  {
    ValidateDecides(head, members);
    if head.layout.rule.Partition? {
      PartitionInBounds(head, members);
      ExactCoverByVolume(BoxesOf(members), head.shape);
      ProductZero(head.shape);
    }
  }

  /** With such a head, and with what the validator leaves out in order, acceptance is validity. */
  lemma ValidateMeansValid(head: Descriptor, members: seq<Descriptor>)
    requires AllWellFormed(members) && Unlooked(head, members)
    requires head.layout.Composite? && head.layout.rule.Partition? ==> CountFits(head.shape) || 0 in head.shape
    ensures Validate(head, members) == Ok(()) <==> ValidComposite(head, members)
  {
    ValidExactly(head, members);
    if Validate(head, members) == Ok(()) { AcceptedAddsUp(head, members); }
  }

  /** A quantized base that decodes to another type than the head's is accepted. */
  lemma QuantizedTypeUnchecked(tag: U8, other: U8)
    requires tag != other
    ensures var head := Descriptor(tag, [], Composite(Overlay(Replace), 1), None, None, None, []);
            var base := Descriptor(tag, [], Plain(1), Some(other), Some(Shard([], [])), Some(Base), [BufferHandle(1, true)]);
            Validate(head, [base]) == Ok(()) && !ValidComposite(head, [base])
  {
    var head := Descriptor(tag, [], Composite(Overlay(Replace), 1), None, None, None, []);
    var base := Descriptor(tag, [], Plain(1), Some(other), Some(Shard([], [])), Some(Base), [BufferHandle(1, true)]);
    assert MemberFits(head.layout.rule, [], tag, 0, base);
    ValidateDecides(head, [base]);
    assert !MemberValid(head.layout.rule, [], tag, 0, [base][0]);
  }

  /** A group takes any members without a role whose number agrees with its count in 32 bits. */
  lemma GroupTakes(head: Descriptor, members: seq<Descriptor>)
    requires head.layout == Composite(Group, |members| % U32_LIMIT) && AllWellFormed(members)
    requires forall i :: 0 <= i < |members| ==> members[i].role == None
    ensures Validate(head, members) == Ok(())
  {
    ValidateDecides(head, members);
  }

  /** Only the low 32 bits of the number of members are compared with the declared count: this
      group declares no members and is accepted with `2^32` of them. */
  lemma TruncatedCountAccepted(head: Descriptor, plain: Descriptor)
    requires head.layout == Composite(Group, 0) && plain.WellFormed() && plain.role == None
    ensures var members := seq(U32_LIMIT, _ => plain);
            && Validate(head, members) == Ok(()) && !ValidComposite(head, members)
            && |members| != head.layout.memberCount
  {
    GroupTakes(head, seq(U32_LIMIT, _ => plain));
  }

  /** The reserved count is accepted with as many members. */
  lemma ReservedCountAccepted(head: Descriptor, plain: Descriptor)
    requires head.layout == Composite(Group, RESERVED_COUNT) && plain.WellFormed() && plain.role == None
    ensures var members := seq(RESERVED_COUNT, _ => plain);
            Validate(head, members) == Ok(()) && !ValidComposite(head, members)
  {
    GroupTakes(head, seq(RESERVED_COUNT, _ => plain));
  }

  /** Acceptance of any composite of `n` members says that the declared count is `n`. */
  ghost predicate CountTrusted(n: nat) {
    forall head: Descriptor, members: seq<Descriptor> ::
      |members| == n && AllWellFormed(members) && Validate(head, members) == Ok(()) ==> head.layout.memberCount == n
  }

  /** The count can be trusted exactly below `2^32` members: any larger number of plain members
      is accepted by the group that declares its remainder. That remainder may be the reserved
      count, which the constructor of a composite layout refuses, but its field is public and the
      validator does not look at it. */
  lemma CountTrustedBelow(n: nat)
    ensures CountTrusted(n) <==> n < U32_LIMIT
  {
    if n < U32_LIMIT {
      forall head: Descriptor, members: seq<Descriptor> |
        |members| == n && AllWellFormed(members) && Validate(head, members) == Ok(())
        ensures head.layout.memberCount == n
      {
        ValidateDecides(head, members);
      }
    } else {
      var head := Descriptor(0, [], Composite(Group, n % U32_LIMIT), None, None, None, []);
      var plain := Descriptor(0, [], Plain(1), None, None, None, [BufferHandle(1, true)]);
      var members := seq(n, _ => plain);
      GroupTakes(head, members);
      assert |members| == n && AllWellFormed(members) && Validate(head, members) == Ok(());
    }
  }

  // ---- what acceptance is worth ----

  /** An accepted partition of a countable head is an exact tiling of it: every index of the
      head belongs to exactly one member. */
  lemma PartitionTilesHead(head: Descriptor, members: seq<Descriptor>)
    requires AllWellFormed(members) && Validate(head, members) == Ok(())
    requires head.layout.rule.Partition? && CountFits(head.shape)
    ensures MembersFit(head, members)
    ensures AllInBounds(BoxesOf(members), head.shape)
    ensures ExactlyCovers(BoxesOf(members), head.shape)
  {
    ValidateDecides(head, members);
    PartitionInBounds(head, members);
  }

  lemma PartitionInBounds(head: Descriptor, members: seq<Descriptor>)
    requires head.layout.Composite? && head.layout.rule.Partition? && MembersFit(head, members)
    ensures AllInBounds(BoxesOf(members), head.shape)
  {
    forall i | 0 <= i < |members|
      ensures InBounds(BoxesOf(members)[i], head.shape)
    {
      assert MemberFits(head.layout.rule, head.shape, head.typeTag, i, members[i]);
    }
  }

  /** Conversely every tiling by non-empty members is accepted. */
  lemma TilingAccepted(head: Descriptor, members: seq<Descriptor>)
    requires AllWellFormed(members)
    requires head.layout.Composite? && head.layout.rule.Partition? && CountFits(head.shape)
    requires MembersFit(head, members) && |members| % U32_LIMIT == head.layout.memberCount
    requires AllNonEmpty(BoxesOf(members)) && ExactlyCovers(BoxesOf(members), head.shape)
    ensures Validate(head, members) == Ok(())
  {
    PartitionInBounds(head, members);
    NonEmptyBoxesDecided(BoxesOf(members), head.shape);
    AcceptedIffExactCover(BoxesOf(members), head.shape);
    ExactCoverByVolume(BoxesOf(members), head.shape);
    ValidateDecides(head, members);
  }

  /** An accepted overlay has a base that covers every index of the head, and corrections that
      stay inside it. */
  lemma OverlayHasBase(head: Descriptor, members: seq<Descriptor>)
    requires AllWellFormed(members) && Validate(head, members) == Ok(())
    requires head.layout.Composite? && head.layout.rule.Overlay?
    ensures |members| > 0 && SpansAsBase(members[0], head.shape)
    ensures forall i :: 0 < i < |members| ==>
              members[i].role == Some(Correction) && members[i].shard.Some? && InBounds(BoxOf(members[i]), head.shape)
    ensures members[0].shard.Some? && forall x :: IsCell(x, head.shape) ==> Contains(BoxOf(members[0]), x)
  {
    ValidateDecides(head, members);
    assert MemberFits(head.layout.rule, head.shape, head.typeTag, 0, members[0]);
    forall i | 0 < i < |members|
      ensures members[i].role == Some(Correction) && members[i].shard.Some? && InBounds(BoxOf(members[i]), head.shape)
    {
      assert MemberFits(head.layout.rule, head.shape, head.typeTag, i, members[i]);
    }
  }

  // ---- CompositeTensor::new_at_depth ----

  ghost predicate HasNestedHead(members: seq<Descriptor>) {
    exists i :: 0 <= i < |members| && members[i].layout.Composite?
  }

  /** The depth budget is exceeded by the head, or by a nested head reached before any member is
      refused. */
  ghost predicate TooDeep(head: Descriptor, members: seq<Descriptor>, depth: nat) {
    || depth >= MAX_COMPOSITE_DEPTH
    || (depth + 1 == MAX_COMPOSITE_DEPTH && Init(head).Ok? &&
        exists i :: 0 <= i < |members| && members[i].layout.Composite? && MembersFit(head, members[..i]))
  }

  /** Builds a composite at a nesting depth. It is accepted exactly when the depth budget holds for
      this head and for the nested heads it can see, and the validator lets the composite pass;
      otherwise the answer is the validator's, or that the nesting is too deep. */
  method NewAtDepth(head: Descriptor, members: seq<Descriptor>, depth: U8) returns (r: Result<()>)
    requires AllWellFormed(members)
    ensures r.Ok? <==>
            && depth < MAX_COMPOSITE_DEPTH
            && (HasNestedHead(members) ==> depth as int + 1 < MAX_COMPOSITE_DEPTH)
            && Passes(head, members)
    ensures r == if TooDeep(head, members, depth) then Err(NestingTooDeep) else Validate(head, members)
  {
    if depth >= MAX_COMPOSITE_DEPTH {
      return Err(NestingTooDeep);
    }
    hide Run, Admit, Close, MembersFit, Passes;
    ValidateDecides(head, members);
    var init := Init(head);
    if init.Err? {
      return Err(init.error);
    }
    var validator := new CompositeValidator(head);
    RunOfNone(init.value, members);
    for i := 0 to |members|
      invariant Run(init.value, members[..i]) == Ok(validator.Current())
      invariant WithinBudget(members, i, depth)
    {
      if members[i].layout.Composite? && depth as int + 1 >= MAX_COMPOSITE_DEPTH {
        RunDecides(head, members[..i]);
        return Err(NestingTooDeep);
      }
      RunOfOneMore(init.value, members, i);
      var pushed := validator.PushMember(members[i]);
      if pushed.Err? {
        RunFailsOn(init.value, members, i + 1);
        StopsAt(head, members, i);
        return pushed;
      }
    }
    assert members[..|members|] == members;
    r := validator.Finish();
  }

  /** No nested head among the first members exceeds the depth budget. */
  ghost predicate WithinBudget(members: seq<Descriptor>, i: nat, depth: nat) {
    forall j :: 0 <= j < i && j < |members| && members[j].layout.Composite? ==> depth + 1 < MAX_COMPOSITE_DEPTH
  }

  lemma RunOfNone(s: State, members: seq<Descriptor>)
    requires AllWellFormed(members)
    ensures Run(s, members[..0]) == Ok(s)
  {
  }

  lemma RunOfOneMore(s: State, members: seq<Descriptor>, i: nat)
    requires AllWellFormed(members) && i < |members| && Run(s, members[..i]).Ok?
    ensures Run(s, members[..i + 1]) == Admit(Run(s, members[..i]).value, members[i])
  {
    assert members[..i + 1][..i] == members[..i];
  }

  /** After a refused member no longer prefix fits. */
  lemma StopsAt(head: Descriptor, members: seq<Descriptor>, i: nat)
    requires AllWellFormed(members) && Init(head).Ok? && i < |members| && Run(Init(head).value, members[..i + 1]).Err?
    ensures forall j :: i < j <= |members| ==> !MembersFit(head, members[..j])
  {
    var short := members[..i + 1];
    RunDecides(head, short);
    var k :| 0 <= k < |short| && !MemberFits(head.layout.rule, head.shape, head.typeTag, k, short[k]);
    forall j | i < j <= |members|
      ensures !MembersFit(head, members[..j])
    {
      assert members[..j][k] == short[k];
    }
  }

  /** A run that fails on a prefix fails as a whole, for the same reason. */
  lemma {:induction false} RunFailsOn(s: State, members: seq<Descriptor>, i: nat)
    requires AllWellFormed(members) && i <= |members| && Run(s, members[..i]).Err?
    ensures Run(s, members) == Run(s, members[..i])
    decreases |members|
  {
    if i == |members| {
      assert members[..i] == members;
    } else {
      assert members[..|members| - 1][..i] == members[..i];
      RunFailsOn(s, members[..|members| - 1], i);
    }
  }
}
