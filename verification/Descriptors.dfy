/** The parts of a tensor descriptor that composite validation looks at. */
module Descriptors {
  import opened Shapes
  import opened Boxes

  const U32_LIMIT: nat := 0x1_0000_0000

  type U8 = x: int | 0 <= x < 0x100
  type U32 = x: int | 0 <= x < 0x1_0000_0000

  /** The member count set aside for composites that stay open. */
  const RESERVED_COUNT: U32 := 0xFFFF_FFFF

  datatype CombineOp = Replace | Add

  datatype CompositionRule = Partition | Overlay(op: CombineOp) | Group {
    function RuleByte(): U8 {
      match this
      case Partition => 0x01
      case Overlay(_) => 0x02
      case Group => 0x03
    }
  }

  datatype MemberRole = Correction | Base

  datatype Layout = Plain(tag: U8) | Composite(rule: CompositionRule, memberCount: U32)

  /** Declares a tensor to be a rectangular part of a larger parent. */
  datatype Shard = Shard(parentShape: seq<U64>, offset: seq<U64>)

  /** An entry of the buffer table: how long the buffer is, and whether its producer has
      synchronised it. */
  datatype BufferHandle = BufferHandle(byteSize: U64, producerSynced: bool)

  /** A quantized tensor has the element type it decodes to beside the one it stores. */
  datatype Descriptor = Descriptor(
    typeTag: U8,
    shape: seq<U64>,
    layout: Layout,
    quantization: Option<U8>,
    shard: Option<Shard>,
    role: Option<MemberRole>,
    buffers: seq<BufferHandle>)
  {
    /** What the descriptor and shard constructors enforce: a shard has the tensor's rank, and a
        composite head has neither buffers nor quantization. */
    predicate WellFormed() {
      && (shard.Some? ==> |shard.value.parentShape| == |shard.value.offset| == |shape|)
      && (layout.Composite? ==> buffers == [] && quantization == None)
    }

    /** The type of the values a consumer sees. */
    function DecodedTag(): U8 {
      if quantization.Some? then quantization.value else typeTag
    }
  }

  /** A descriptor as its constructor leaves it. */
  type TensorDescriptor = d: Descriptor | d.WellFormed() witness Descriptor(0, [], Plain(1), None, None, None, [])

  datatype Error =
    | InvalidLayout
    | ShardOutOfBounds(dim: nat, offset: U64, size: U64, parent: U64)
    | MemberMissingShard(index: nat)
    | MemberParentShapeMismatch(index: nat)
    | MemberTypeMismatch(index: nat, member: U8, head: U8)
    | MemberFlagMismatch(rule: U8, hasFlag: bool)
    | OverlayBaseNotFirst
    | OverlayBaseNotSpanning
    | OverlayEmpty
    | MemberCountMismatch(declared: U32, actual: nat)
    | PartitionGap
    | PartitionOverlap(a: nat, b: nat)
    | NestingTooDeep

  datatype Result<+T> = Ok(value: T) | Err(error: Error)

  /** The box a member with a shard section occupies in its head. */
  ghost function BoxOf(m: Descriptor): Box
    requires m.shard.Some?
  {
    Box(m.shard.value.offset, m.shape)
  }
}
