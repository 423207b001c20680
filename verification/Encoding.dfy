/** The descriptor encoder, and what the inspector shows of its output: field by field, what was
    written. Floating-point and signed fields are their bit patterns. */
module Encoding {
  import opened Shapes
  import opened Packing
  import D = Descriptors

  type Bytes = seq<bv8>

  // ---- numbers as bytes ----

  lemma Increment(b: bv8)
    requires b != 255
    ensures (b + 1) as nat == b as nat + 1
  {
  }

  /** The byte with a number, by counting up. */
  function ByteOf(v: nat): (b: bv8)
    requires v < 256
    ensures b as nat == v
  {
    if v == 0 then 0 else
    var below := ByteOf(v - 1);
    Increment(below);
    below + 1
  }

  /** The low `n` bytes of a number, least significant first. */
  function WordBytes(v: nat, n: nat): (b: Bytes)
    ensures |b| == n
  {
    if n == 0 then [] else [ByteOf(v % 256)] + WordBytes(v / 256, n - 1)
  }

  /** A number that fits is read back from its bytes. */
  lemma {:induction false} WordRoundTrip(v: nat, n: nat)
    requires v < Pow(256, n)
    ensures LittleEndian(WordBytes(v, n)) == v
  {
    if n > 0 {
      QuotientBelow(v, 256, Pow(256, n - 1));
      WordRoundTrip(v / 256, n - 1);
      LowByte(v, WordBytes(v / 256, n - 1));
    }
  }

  lemma LowByte(v: nat, rest: Bytes)
    ensures LittleEndian([ByteOf(v % 256)] + rest) == v % 256 + 256 * LittleEndian(rest)
  {
    assert ([ByteOf(v % 256)] + rest)[1..] == rest;
  }

  function Zeros(n: nat): (b: Bytes)
    ensures |b| == n
  {
    seq(n, _ => 0)
  }

  // ---- what is encoded ----

  datatype TiledLayout = TiledLayout(
    tileShape: seq<U64>,
    outerTag: bv8,
    innerTag: bv8,
    outerStrides: Option<seq<U64>>,
    innerStrides: Option<seq<U64>>,
    inner: Option<TiledLayout>)
  {
    /** What the constructor enforces, level by level: strides and a nested layout exactly where a
        tag asks for them. */
    predicate TagsAgree() {
      && (outerStrides.Some? <==> outerTag == STRIDED) && (innerStrides.Some? <==> innerTag == STRIDED)
      && (inner.Some? <==> innerTag == TILED) && (inner.Some? ==> inner.value.TagsAgree())
    }

    function Depth(): nat {
      1 + if innerTag == TILED && inner.Some? then inner.value.Depth() else 0
    }
  }

  const STRIDED: bv8 := 3
  const TILED: bv8 := 4
  const MAX_TILED_DEPTH: nat := 8

  datatype LayoutValue =
    | RowMajorValue | ColMajorValue
    | StridedValue(strides: seq<U64>)
    | TiledValue(tiled: TiledLayout)
    | MortonValue(bits: seq<D.U32>)
    | CooValue(nnz: U64, sorted: bool)
    | CsrValue(nnz: U64) | CscValue(nnz: U64)
    | CsfValue(nnz: U64, modeOrder: seq<D.U32>)
    | BlockPagedValue(pageSize: D.U32, numPages: U64, pagedAxis: D.U32, numSeqs: D.U32, kvRole: bv8,
                      layerIndex: Option<D.U32>, indexType: bv8)
    | CompositeValue(rule: bv8, op: bv8, memberCount: D.U32)
    | HilbertValue(order: D.U32, rank: D.U32)
    | ExtensionValue(id: U64, data: Bytes)
    | UnknownValue(raw: Bytes)

  datatype Handle = Handle(byteSize: U64, alignment: D.U32, device: bv8, sync: bv8, memoryClass: bv8)

  datatype Statistics = Statistics(mask: D.U32, nnz: U64, sparsity: U64, least: U64, largest: U64, absLargest: U64,
                                   mean: U64, deviation: U64, nmN: bv8, nmM: bv8, hasNan: bool, hasInf: bool)

  datatype ExtensionType = ExtensionType(bitWidth: D.U32, packingFactor: bv8, isFloat: bool, isSigned: bool, signBits: bv8,
                                         exponentBits: bv8, mantissaBits: bv8, exponentBias: D.U32, hasNan: bool, hasInf: bool)

  /** A whole descriptor. */
  datatype Descriptor = Descriptor(
    major: bv8, minor: bv8, typeTag: bv8, layoutTag: bv8,
    dims: seq<U64>,
    byteOffset: U64,
    layout: LayoutValue,
    handles: seq<Handle>,
    quantization: Option<Bytes>,
    shard: Option<(seq<U64>, seq<U64>)>,
    statistics: Option<Statistics>,
    extension: Option<ExtensionType>,
    role: Option<bv8>)
  {
    /** One bit for each optional section. */
    function Flags(): (f: D.U32)
      ensures f < 32
    {
      (if quantization.Some? then 1 else 0) + (if shard.Some? then 2 else 0) + (if extension.Some? then 4 else 0)
      + (if statistics.Some? then 8 else 0) + (if role.Some? then 16 else 0)
    }
  }

  // ---- the fields that are written, in order ----

  function Flag(b: bool): bv8 {
    if b then 1 else 0
  }

  function Words(vs: seq<nat>, n: nat): (fields: seq<Bytes>)
    ensures |fields| == |vs| && forall i :: 0 <= i < |vs| ==> fields[i] == WordBytes(vs[i], n)
  {
    seq(|vs|, i requires 0 <= i < |vs| => WordBytes(vs[i], n))
  }

  function StrideFields(wanted: bool, strides: Option<seq<U64>>): seq<Bytes> {
    if wanted && strides.Some? then Words(strides.value, 8) else []
  }

  /** The fields of one level. */
  function LevelFields(t: TiledLayout): seq<Bytes> {
    Words(t.tileShape, 8) + [[t.outerTag], [t.innerTag], Zeros(2)]
    + StrideFields(t.outerTag == STRIDED, t.outerStrides)
    + StrideFields(t.innerTag == STRIDED, t.innerStrides)
  }

  function TiledFields(t: TiledLayout): seq<Bytes>
    decreases t
  {
    LevelFields(t) + if t.innerTag == TILED && t.inner.Some? then TiledFields(t.inner.value) else []
  }

  /** An absent layer is the largest number. */
  function LayerWord(layer: Option<D.U32>): D.U32 {
    if layer.Some? then layer.value else 0xFFFF_FFFF
  }

  function LayoutFieldsOf(layout: LayoutValue): seq<Bytes> {
    match layout
    case RowMajorValue | ColMajorValue | UnknownValue(_) => []
    case StridedValue(strides) => Words(strides, 8)
    case TiledValue(tiled) => TiledFields(tiled)
    case MortonValue(bits) => Words(bits, 4)
    case CooValue(nnz, sorted) => [WordBytes(nnz, 8), [Flag(sorted)], Zeros(7)]
    case CsrValue(nnz) => [WordBytes(nnz, 8), Zeros(8)]
    case CscValue(nnz) => [WordBytes(nnz, 8), Zeros(8)]
    case CsfValue(nnz, modeOrder) => [WordBytes(nnz, 8)] + Words(modeOrder, 4) + [Zeros(8)]
    case BlockPagedValue(pageSize, numPages, pagedAxis, numSeqs, kvRole, layerIndex, indexType) =>
      [WordBytes(pageSize, 4), WordBytes(numPages, 8), WordBytes(pagedAxis, 4), WordBytes(numSeqs, 4),
       [kvRole], WordBytes(LayerWord(layerIndex), 4), [indexType], Zeros(6)]
    case CompositeValue(rule, op, memberCount) => [[rule], [op], Zeros(2), WordBytes(memberCount, 4)]
    case HilbertValue(order, rank) => [WordBytes(order, 4), WordBytes(rank, 4)]
    case ExtensionValue(id, data) => [WordBytes(id, 8), WordBytes(|data| % D.U32_LIMIT, 4), data]
  }

  const MAGIC: Bytes := [0x48, 0x52, 0x52, 0x59]

  /** The header up to its length field, and from there on, with the shape and the offset. */
  function FrontFields(d: Descriptor): seq<Bytes> {
    [MAGIC, [d.major], [d.minor]]
  }

  function HeaderFields(d: Descriptor): seq<Bytes> {
    [WordBytes(d.Flags(), 4), [d.typeTag], [d.layoutTag], WordBytes(|d.dims| % D.U32_LIMIT, 4)]
    + Words(d.dims, 8) + [WordBytes(d.byteOffset, 8)]
  }

  function OneHandle(h: Handle): seq<Bytes> {
    [WordBytes(h.byteSize, 8), WordBytes(h.alignment, 4), [h.device], [h.sync], [h.memoryClass], Zeros(1)]
  }

  function HandleFields(handles: seq<Handle>): seq<Bytes> {
    if handles == [] then [] else
    HandleFields(handles[..|handles| - 1]) + OneHandle(handles[|handles| - 1])
  }

  function StatisticsValues(s: Statistics): seq<Bytes> {
    [WordBytes(s.mask, 4), WordBytes(0, 4), WordBytes(s.nnz, 8), WordBytes(s.sparsity, 8), WordBytes(s.least, 8),
     WordBytes(s.largest, 8), WordBytes(s.absLargest, 8), WordBytes(s.mean, 8), WordBytes(s.deviation, 8)]
  }

  function StatisticsFields(s: Statistics): seq<Bytes> {
    StatisticsValues(s) + [[s.nmN], [s.nmM], [Flag(s.hasNan)], [Flag(s.hasInf)], Zeros(4)]
  }

  function ExtensionWidths(x: ExtensionType): seq<Bytes> {
    [WordBytes(x.bitWidth, 4), [x.packingFactor], [Flag(x.isFloat)], [Flag(x.isSigned)], [x.signBits], [x.exponentBits],
     [x.mantissaBits], Zeros(2)]
  }

  function ExtensionFields(x: ExtensionType): seq<Bytes> {
    ExtensionWidths(x) + [WordBytes(x.exponentBias, 4), [Flag(x.hasNan)], [Flag(x.hasInf)], Zeros(2)]
  }

  function ShardFields(shard: Option<(seq<U64>, seq<U64>)>): seq<Bytes> {
    if shard.Some? then Words(shard.value.0, 8) + Words(shard.value.1, 8) else []
  }

  function StatisticsSection(s: Option<Statistics>): seq<Bytes> {
    if s.Some? then StatisticsFields(s.value) else []
  }

  function ExtensionSection(x: Option<ExtensionType>): seq<Bytes> {
    if x.Some? then ExtensionFields(x.value) else []
  }

  function RoleFields(role: Option<bv8>): seq<Bytes> {
    if role.Some? then [[role.value], Zeros(15)] else []
  }

  /** The sections after the quantization, in their order. */
  function TailFields(d: Descriptor): seq<Bytes> {
    ShardFields(d.shard) + StatisticsSection(d.statistics) + ExtensionSection(d.extension) + RoleFields(d.role)
  }

  function QuantizationFields(q: Option<Bytes>): seq<Bytes> {
    if q.Some? then [WordBytes(|q.value| % D.U32_LIMIT, 4), q.value] else []
  }

  function CountField(d: Descriptor): Bytes {
    [ByteOf(|d.handles| % 256)]
  }

  /** The sections after the header. */
  function BodyFields(d: Descriptor): seq<Bytes> {
    LayoutFieldsOf(d.layout) + [CountField(d)] + HandleFields(d.handles) + QuantizationFields(d.quantization) + TailFields(d)
  }

  function AfterLength(d: Descriptor): seq<Bytes> {
    HeaderFields(d) + BodyFields(d)
  }

  function Fields(d: Descriptor, length: nat): seq<Bytes> {
    FrontFields(d) + [WordBytes(length, 4)] + AfterLength(d)
  }

  /** The bytes of fields, in order. */
  ghost function Concat(fields: seq<Bytes>): Bytes {
    if fields == [] then [] else Concat(fields[..|fields| - 1]) + fields[|fields| - 1]
  }

  lemma {:induction false} ConcatPlus(a: seq<Bytes>, b: seq<Bytes>)
    ensures Concat(a + b) == Concat(a) + Concat(b)
  {
    if b == [] {
      assert a + b == a;
    } else {
      var n := |b| - 1;
      ConcatPlus(a, b[..n]);
      assert (a + b)[..|a| + n] == a + b[..n];
    }
  }

  lemma ConcatOne(a: seq<Bytes>, field: Bytes)
    ensures Concat(a + [field]) == Concat(a) + field
  {
    assert (a + [field])[..|a|] == a;
  }

  // ---- the writer ----

  /** A growing buffer. The fields written so far are kept for the proof. */
  class ByteWriter {
    var buf: Bytes
    ghost var fields: seq<Bytes>

    ghost predicate Valid()
      reads this
    {
      buf == Concat(fields)
    }

    constructor ()
      ensures Valid() && fields == []
    {
      buf := [];
      fields := [];
    }

    method WriteBytes(b: Bytes)
      requires Valid()
      modifies this
      ensures Valid() && fields == old(fields) + [b]
    {
      ConcatOne(fields, b);
      buf := buf + b;
      fields := fields + [b];
    }

    method WriteU8(v: bv8)
      requires Valid()
      modifies this
      ensures Valid() && fields == old(fields) + [[v]]
    {
      WriteBytes([v]);
    }

    method WriteU32(v: D.U32)
      requires Valid()
      modifies this
      ensures Valid() && fields == old(fields) + [WordBytes(v, 4)]
    {
      WriteBytes(WordBytes(v, 4));
    }

    method WriteU64(v: U64)
      requires Valid()
      modifies this
      ensures Valid() && fields == old(fields) + [WordBytes(v, 8)]
    {
      WriteBytes(WordBytes(v, 8));
    }

    method WriteZeros(n: nat)
      requires Valid()
      modifies this
      ensures Valid() && fields == old(fields) + [Zeros(n)]
    {
      WriteBytes(Zeros(n));
    }

    method WriteAll64(vs: seq<U64>)
      requires Valid()
      modifies this
      ensures Valid() && fields == old(fields) + Words(vs, 8)
    {
      hide Concat, WordBytes;
      for i := 0 to |vs|
        invariant Valid() && fields == old(fields) + Words(vs[..i], 8)
      {
        WriteU64(vs[i]);
        assert Words(vs[..i + 1], 8) == Words(vs[..i], 8) + [WordBytes(vs[i], 8)];
      }
      assert vs[..|vs|] == vs;
    }

    method WriteAll32(vs: seq<D.U32>)
      requires Valid()
      modifies this
      ensures Valid() && fields == old(fields) + Words(vs, 4)
    {
      hide Concat, WordBytes;
      for i := 0 to |vs|
        invariant Valid() && fields == old(fields) + Words(vs[..i], 4)
      {
        WriteU32(vs[i]);
        assert Words(vs[..i + 1], 4) == Words(vs[..i], 4) + [WordBytes(vs[i], 4)];
      }
      assert vs[..|vs|] == vs;
    }
  }

  datatype EncodeError = NestingTooDeep | ModeOrderRank | UnknownLayout | TooManyBuffers | HeadWithRole | TooLong

  datatype Encoded = Written(bytes: Bytes) | Failed(error: EncodeError)

  method EncodeStrides(w: ByteWriter, wanted: bool, strides: Option<seq<U64>>)
    requires w.Valid()
    modifies w
    ensures w.Valid() && w.fields == old(w.fields) + StrideFields(wanted, strides)
  {
    if wanted && strides.Some? {
      w.WriteAll64(strides.value);
    }
  }

  method EncodeLevel(w: ByteWriter, t: TiledLayout)
    requires w.Valid()
    modifies w
    ensures w.Valid() && w.fields == old(w.fields) + LevelFields(t)
  {
    hide Concat, WordBytes, Words, Zeros, StrideFields;
    w.WriteAll64(t.tileShape);
    w.WriteU8(t.outerTag);
    w.WriteU8(t.innerTag);
    w.WriteZeros(2);
    EncodeStrides(w, t.outerTag == STRIDED, t.outerStrides);
    EncodeStrides(w, t.innerTag == STRIDED, t.innerStrides);
  }

  /** A tiled layout, level by level; nothing is promised about the buffer when it is too deep. */
  method EncodeTiled(w: ByteWriter, t: TiledLayout, depth: nat) returns (failed: Option<EncodeError>)
    requires w.Valid()
    modifies w
    ensures w.Valid()
    ensures failed == if depth + t.Depth() > MAX_TILED_DEPTH then Some(NestingTooDeep) else None
    ensures failed.None? ==> w.fields == old(w.fields) + TiledFields(t)
    decreases t
  {
    hide Concat, LevelFields;
    if depth >= MAX_TILED_DEPTH {
      return Some(NestingTooDeep);
    }
    EncodeLevel(w, t);
    failed := None;
    if t.innerTag == TILED && t.inner.Some? {
      failed := EncodeTiled(w, t.inner.value, depth + 1);
    }
  }

  ghost function LayoutFailure(layout: LayoutValue, rank: D.U32): Option<EncodeError> {
    if layout.UnknownValue? then Some(UnknownLayout)
    else if layout.TiledValue? && layout.tiled.Depth() > MAX_TILED_DEPTH then Some(NestingTooDeep)
    else if layout.CsfValue? && |layout.modeOrder| % D.U32_LIMIT != rank then Some(ModeOrderRank)
    else None
  }

  method EncodeCoo(w: ByteWriter, nnz: U64, sorted: bool)
    requires w.Valid()
    modifies w
    ensures w.Valid() && w.fields == old(w.fields) + LayoutFieldsOf(CooValue(nnz, sorted))
  {
    w.WriteU64(nnz);
    w.WriteU8(Flag(sorted));
    w.WriteZeros(7);
  }

  method EncodeCompressed(w: ByteWriter, nnz: U64)
    requires w.Valid()
    modifies w
    ensures w.Valid() && w.fields == old(w.fields) + [WordBytes(nnz, 8), Zeros(8)]
  {
    w.WriteU64(nnz);
    w.WriteZeros(8);
  }

  method EncodeCsf(w: ByteWriter, nnz: U64, modeOrder: seq<D.U32>, rank: D.U32) returns (failed: Option<EncodeError>)
    requires w.Valid()
    modifies w
    ensures w.Valid()
    ensures failed == if |modeOrder| % D.U32_LIMIT != rank then Some(ModeOrderRank) else None
    ensures failed.None? ==> w.fields == old(w.fields) + LayoutFieldsOf(CsfValue(nnz, modeOrder))
  {
    hide Concat, WordBytes, Words, Zeros;
    w.WriteU64(nnz);
    if |modeOrder| % D.U32_LIMIT != rank {
      return Some(ModeOrderRank);
    }
    w.WriteAll32(modeOrder);
    w.WriteZeros(8);
    failed := None;
  }

  method EncodeBlockPaged(w: ByteWriter, layout: LayoutValue)
    requires w.Valid() && layout.BlockPagedValue?
    modifies w
    ensures w.Valid() && w.fields == old(w.fields) + LayoutFieldsOf(layout)
  {
    hide Concat, WordBytes, Zeros, LayerWord;
    w.WriteU32(layout.pageSize);
    w.WriteU64(layout.numPages);
    w.WriteU32(layout.pagedAxis);
    w.WriteU32(layout.numSeqs);
    w.WriteU8(layout.kvRole);
    w.WriteU32(LayerWord(layout.layerIndex));
    w.WriteU8(layout.indexType);
    w.WriteZeros(6);
  }

  method EncodeComposite(w: ByteWriter, rule: bv8, op: bv8, memberCount: D.U32)
    requires w.Valid()
    modifies w
    ensures w.Valid() && w.fields == old(w.fields) + LayoutFieldsOf(CompositeValue(rule, op, memberCount))
  {
    hide Concat, WordBytes, Zeros;
    w.WriteU8(rule);
    w.WriteU8(op);
    w.WriteZeros(2);
    w.WriteU32(memberCount);
  }

  method EncodeHilbert(w: ByteWriter, order: D.U32, rank: D.U32)
    requires w.Valid()
    modifies w
    ensures w.Valid() && w.fields == old(w.fields) + LayoutFieldsOf(HilbertValue(order, rank))
  {
    w.WriteU32(order);
    w.WriteU32(rank);
  }

  method EncodeExtensionLayout(w: ByteWriter, id: U64, data: Bytes)
    requires w.Valid()
    modifies w
    ensures w.Valid() && w.fields == old(w.fields) + LayoutFieldsOf(ExtensionValue(id, data))
  {
    w.WriteU64(id);
    w.WriteU32(|data| % D.U32_LIMIT);
    w.WriteBytes(data);
  }

  method EncodeLayout(w: ByteWriter, layout: LayoutValue, rank: D.U32) returns (failed: Option<EncodeError>)
    requires w.Valid()
    modifies w
    ensures w.Valid()
    ensures failed == LayoutFailure(layout, rank)
    ensures failed.None? ==> w.fields == old(w.fields) + LayoutFieldsOf(layout)
  {
    hide Concat, WordBytes, Words, Zeros, TiledFields, Flag, LayerWord;
    failed := None;
    match layout {
      case RowMajorValue | ColMajorValue =>
      case StridedValue(strides) => w.WriteAll64(strides);
      case TiledValue(tiled) => failed := EncodeTiled(w, tiled, 0);
      case MortonValue(bits) => w.WriteAll32(bits);
      case CooValue(nnz, sorted) => EncodeCoo(w, nnz, sorted);
      case CsrValue(nnz) => EncodeCompressed(w, nnz);
      case CscValue(nnz) => EncodeCompressed(w, nnz);
      case CsfValue(nnz, modeOrder) => failed := EncodeCsf(w, nnz, modeOrder, rank);
      case BlockPagedValue(_, _, _, _, _, _, _) => EncodeBlockPaged(w, layout);
      case CompositeValue(rule, op, memberCount) => EncodeComposite(w, rule, op, memberCount);
      case HilbertValue(order, hilbertRank) => EncodeHilbert(w, order, hilbertRank);
      case ExtensionValue(id, data) => EncodeExtensionLayout(w, id, data);
      case UnknownValue(_) => failed := Some(UnknownLayout);
    }
  }

  method EncodeHeader(w: ByteWriter, d: Descriptor)
    requires w.Valid()
    modifies w
    ensures w.Valid() && w.fields == old(w.fields) + HeaderFields(d)
  {
    hide Concat, WordBytes, Words;
    w.WriteU32(d.Flags());
    w.WriteU8(d.typeTag);
    w.WriteU8(d.layoutTag);
    w.WriteU32(|d.dims| % D.U32_LIMIT);
    w.WriteAll64(d.dims);
    w.WriteU64(d.byteOffset);
  }

  method EncodeHandles(w: ByteWriter, handles: seq<Handle>)
    requires w.Valid()
    modifies w
    ensures w.Valid() && w.fields == old(w.fields) + HandleFields(handles)
  {
    hide Concat, WordBytes, Zeros;
    for i := 0 to |handles|
      invariant w.Valid() && w.fields == old(w.fields) + HandleFields(handles[..i])
    {
      ghost var before := w.fields;
      EncodeHandle(w, handles[i]);
      assert handles[..i + 1][..i] == handles[..i];
      assert w.fields == old(w.fields) + (HandleFields(handles[..i]) + OneHandle(handles[i]));
    }
    assert handles[..|handles|] == handles;
  }

  method EncodeHandle(w: ByteWriter, h: Handle)
    requires w.Valid()
    modifies w
    ensures w.Valid() && w.fields == old(w.fields) + OneHandle(h)
  {
    hide Concat, WordBytes, Zeros;
    w.WriteU64(h.byteSize);
    w.WriteU32(h.alignment);
    w.WriteU8(h.device);
    w.WriteU8(h.sync);
    w.WriteU8(h.memoryClass);
    w.WriteZeros(1);
  }

  method EncodeValues(w: ByteWriter, s: Statistics)
    requires w.Valid()
    modifies w
    ensures w.Valid() && w.fields == old(w.fields) + StatisticsValues(s)
  {
    hide Concat, WordBytes, Zeros, Flag;
    w.WriteU32(s.mask);
    w.WriteU32(0);
    w.WriteU64(s.nnz);
    w.WriteU64(s.sparsity);
    w.WriteU64(s.least);
    w.WriteU64(s.largest);
    w.WriteU64(s.absLargest);
    w.WriteU64(s.mean);
    w.WriteU64(s.deviation);
  }

  method EncodeStatistics(w: ByteWriter, s: Statistics)
    requires w.Valid()
    modifies w
    ensures w.Valid() && w.fields == old(w.fields) + StatisticsFields(s)
  {
    hide Concat, WordBytes, Zeros, Flag, StatisticsValues;
    EncodeValues(w, s);
    w.WriteU8(s.nmN);
    w.WriteU8(s.nmM);
    w.WriteU8(Flag(s.hasNan));
    w.WriteU8(Flag(s.hasInf));
    w.WriteZeros(4);
  }

  method EncodeWidths(w: ByteWriter, x: ExtensionType)
    requires w.Valid()
    modifies w
    ensures w.Valid() && w.fields == old(w.fields) + ExtensionWidths(x)
  {
    hide Concat, WordBytes, Zeros, Flag;
    w.WriteU32(x.bitWidth);
    w.WriteU8(x.packingFactor);
    w.WriteU8(Flag(x.isFloat));
    w.WriteU8(Flag(x.isSigned));
    w.WriteU8(x.signBits);
    w.WriteU8(x.exponentBits);
    w.WriteU8(x.mantissaBits);
    w.WriteZeros(2);
  }

  method EncodeExtension(w: ByteWriter, x: ExtensionType)
    requires w.Valid()
    modifies w
    ensures w.Valid() && w.fields == old(w.fields) + ExtensionFields(x)
  {
    hide Concat, WordBytes, Zeros, Flag, ExtensionWidths;
    EncodeWidths(w, x);
    w.WriteU32(x.exponentBias);
    w.WriteU8(Flag(x.hasNan));
    w.WriteU8(Flag(x.hasInf));
    w.WriteZeros(2);
  }

  method EncodeShard(w: ByteWriter, shard: Option<(seq<U64>, seq<U64>)>)
    requires w.Valid()
    modifies w
    ensures w.Valid() && w.fields == old(w.fields) + ShardFields(shard)
  {
    hide Concat, WordBytes, Words;
    if shard.Some? {
      w.WriteAll64(shard.value.0);
      w.WriteAll64(shard.value.1);
    }
  }

  method EncodeQuantization(w: ByteWriter, q: Option<Bytes>)
    requires w.Valid()
    modifies w
    ensures w.Valid() && w.fields == old(w.fields) + QuantizationFields(q)
  {
    hide Concat, WordBytes;
    if q.Some? {
      w.WriteU32(|q.value| % D.U32_LIMIT);
      w.WriteBytes(q.value);
    }
  }

  method EncodeAdvisory(w: ByteWriter, s: Option<Statistics>, x: Option<ExtensionType>)
    requires w.Valid()
    modifies w
    ensures w.Valid() && w.fields == old(w.fields) + StatisticsSection(s) + ExtensionSection(x)
  {
    hide Concat, StatisticsFields, ExtensionFields;
    if s.Some? {
      EncodeStatistics(w, s.value);
    }
    assert w.fields == old(w.fields) + StatisticsSection(s);
    if x.Some? {
      EncodeExtension(w, x.value);
    }
  }

  /** A head must not be marked as a member. */
  method EncodeRole(w: ByteWriter, d: Descriptor) returns (failed: Option<EncodeError>)
    requires w.Valid()
    modifies w
    ensures w.Valid()
    ensures failed == if d.role.Some? && d.layout.CompositeValue? then Some(HeadWithRole) else None
    ensures failed.None? ==> w.fields == old(w.fields) + RoleFields(d.role)
  {
    hide Concat;
    if d.role.Some? {
      if d.layout.CompositeValue? {
        return Some(HeadWithRole);
      }
      w.WriteU8(d.role.value);
      w.WriteZeros(15);
    }
    failed := None;
  }

  /** Why a descriptor does not encode, first reason first. */
  ghost function Failure(d: Descriptor): Option<EncodeError> {
    var layout := LayoutFailure(d.layout, |d.dims| % D.U32_LIMIT);
    if layout.Some? then layout
    else if |d.handles| > 255 then Some(TooManyBuffers)
    else if d.role.Some? && d.layout.CompositeValue? then Some(HeadWithRole)
    else if |Concat(Fields(d, 0))| >= D.U32_LIMIT then Some(TooLong)
    else None
  }

  /** Up to the layout, the length left at zero. */
  method EncodeFront(w: ByteWriter, d: Descriptor)
    requires w.Valid() && w.fields == []
    modifies w
    ensures w.Valid() && w.fields == FrontFields(d) + [WordBytes(0, 4)] + HeaderFields(d)
  {
    hide Concat, WordBytes, HeaderFields;
    w.WriteBytes(MAGIC);
    w.WriteU8(d.major);
    w.WriteU8(d.minor);
    w.WriteU32(0);
    EncodeHeader(w, d);
  }

  method EncodeBuffers(w: ByteWriter, d: Descriptor)
    requires w.Valid()
    modifies w
    ensures w.Valid() && w.fields == old(w.fields) + ([CountField(d)] + HandleFields(d.handles))
  {
    hide Concat, HandleFields;
    w.WriteU8(ByteOf(|d.handles| % 256));
    EncodeHandles(w, d.handles);
  }

  /** The sections after the buffer table. */
  method EncodeOptional(w: ByteWriter, d: Descriptor) returns (failed: Option<EncodeError>)
    requires w.Valid()
    modifies w
    ensures w.Valid()
    ensures failed == if d.role.Some? && d.layout.CompositeValue? then Some(HeadWithRole) else None
    ensures failed.None? ==> w.fields == old(w.fields) + (QuantizationFields(d.quantization) + TailFields(d))
  {
    hide Concat, QuantizationFields, ShardFields, StatisticsSection, ExtensionSection, RoleFields;
    EncodeQuantization(w, d.quantization);
    EncodeShard(w, d.shard);
    EncodeAdvisory(w, d.statistics, d.extension);
    failed := EncodeRole(w, d);
  }

  /** All sections in their order, the length left at zero. */
  method EncodeSections(w: ByteWriter, d: Descriptor) returns (failed: Option<EncodeError>)
    requires w.Valid() && w.fields == []
    modifies w
    ensures w.Valid()
    ensures failed.Some? ==> failed == Failure(d)
    ensures failed.None? ==> w.fields == Fields(d, 0)
    ensures failed.None? ==> Failure(d) == if |Concat(Fields(d, 0))| >= D.U32_LIMIT then Some(TooLong) else None
  {
    hide Concat, WordBytes, FrontFields, HeaderFields, LayoutFieldsOf, CountField, HandleFields, QuantizationFields,
         TailFields, LayoutFailure;
    EncodeFront(w, d);
    failed := EncodeLayout(w, d.layout, |d.dims| % D.U32_LIMIT);
    if failed.Some? {
      return;
    }
    if |d.handles| > 255 {
      return Some(TooManyBuffers);
    }
    EncodeBuffers(w, d);
    failed := EncodeOptional(w, d);
  }

  lemma LengthInPlace(d: Descriptor, length: nat)
    ensures var front := MAGIC + [d.major] + [d.minor];
            Concat(Fields(d, length)) == front + WordBytes(length, 4) + Concat(AfterLength(d))
  {
    hide AfterLength, WordBytes;
    ConcatOne([], MAGIC);
    ConcatOne([MAGIC], [d.major]);
    ConcatOne([MAGIC, [d.major]], [d.minor]);
    assert [MAGIC] + [[d.major]] == [MAGIC, [d.major]];
    assert [MAGIC, [d.major]] + [[d.minor]] == [MAGIC, [d.major], [d.minor]];
    ConcatOne([MAGIC, [d.major], [d.minor]], WordBytes(length, 4));
    ConcatPlus([MAGIC, [d.major], [d.minor]] + [WordBytes(length, 4)], AfterLength(d));
    assert [] + [MAGIC] == [MAGIC] && [] + MAGIC == MAGIC;
  }

  lemma Patched(front: Bytes, word: Bytes, rest: Bytes, all: Bytes, patch: Bytes)
    requires |front| == 6 && |word| == |patch| == 4 && all == front + word + rest
    ensures |all| >= 10 && all[..6] + patch + all[10..] == front + patch + rest
    ensures all[6..10] == word
  {
  }

  /** The wire form of a descriptor. The length is filled in at its place when all is written. */
  method Encode(d: Descriptor) returns (r: Encoded)
    ensures r.Failed? <==> Failure(d).Some?
    ensures r.Failed? ==> Some(r.error) == Failure(d)
    ensures r.Written? ==> r.bytes == Concat(Fields(d, |r.bytes|)) && |r.bytes| < D.U32_LIMIT
  {
    hide Fields, Concat, WordBytes, AfterLength;
    var w := new ByteWriter();
    var failed := EncodeSections(w, d);
    if failed.Some? {
      return Failed(failed.value);
    }
    var total := |w.buf|;
    if total >= D.U32_LIMIT {
      return Failed(TooLong);
    }
    LengthInPlace(d, 0);
    LengthInPlace(d, total);
    Patched(MAGIC + [d.major] + [d.minor], WordBytes(0, 4), Concat(AfterLength(d)), w.buf, WordBytes(total, 4));
    var buf := w.buf[..6] + WordBytes(total, 4) + w.buf[10..];
    return Written(buf);
  }
}
