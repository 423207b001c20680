/** Encoder and inspector together: the rows shown for an encoded descriptor are the fields that
    were written. */
module Inspection {
  import opened Shapes
  import opened Packing
  import opened Reader
  import opened Encoding
  import opened Offsets
  import D = Descriptors

  // ---- which fields a descriptor has ----

  function TiledOf(t: TiledLayout): Tiled {
    Tiled(|t.tileShape|,
          if t.outerStrides.Some? then Some(|t.outerStrides.value|) else None,
          if t.innerStrides.Some? then Some(|t.innerStrides.value|) else None,
          if t.inner.Some? then Some(TiledOf(t.inner.value)) else None)
  }

  function LayoutOf(layout: LayoutValue): LayoutFields {
    match layout
    case RowMajorValue => RowMajor
    case ColMajorValue => ColMajor
    case StridedValue(strides) => Strided(|strides|)
    case TiledValue(tiled) => Nested(TiledOf(tiled))
    case MortonValue(bits) => Morton(|bits|)
    case CooValue(_, _) => Coo
    case CsrValue(_) => Csr
    case CscValue(_) => Csc
    case CsfValue(_, modeOrder) => Csf(|modeOrder|)
    case BlockPagedValue(_, _, _, _, _, _, _) => BlockPaged
    case CompositeValue(_, _, _) => Composite
    case HilbertValue(_, _) => Hilbert
    case ExtensionValue(_, data) => PrivateExtension(|data|)
    case UnknownValue(raw) => Unknown(|raw|)
  }

  /** What a reader finds in a descriptor. Whether its quantization can be decoded, and as what, is
      for the decoder to say. */
  function SectionsOf(d: Descriptor, scheme: Option<QuantizationScheme>): Sections {
    Sections(
      |d.dims|, LayoutOf(d.layout), |d.handles|,
      if d.quantization.None? then None
      else if scheme.Some? then Some(Decoded(scheme.value)) else Some(Undecodable(|d.quantization.value|)),
      if d.shard.Some? then Some((|d.shard.value.0|, |d.shard.value.1|)) else None,
      d.statistics.Some?, d.extension.Some?, d.role.Some?)
  }

  /** The encoded length of a scheme's parameters. */
  function SchemeBytes(scheme: QuantizationScheme): nat {
    match scheme
    case PerTensorAffine | Nf4 | Mxfp => 16
    case PerChannelAffine => 20
    case PerBlockAffine => 24
  }

  /** Where the parameters of a scheme start in its section. */
  function Marks(scheme: QuantizationScheme): (marks: seq<nat>)
    ensures |marks| > 0 && marks[0] == 0 && marks[|marks| - 1] <= SchemeBytes(scheme)
    ensures forall i :: 0 < i < |marks| ==> marks[i - 1] <= marks[i]
  {
    match scheme
    case PerTensorAffine | Nf4 | Mxfp => [0, 1, 2, 4, 8, 12]
    case PerChannelAffine => [0, 1, 2, 4, 8, 12, 16, 17]
    case PerBlockAffine => [0, 1, 2, 4, 8, 12, 16, 20, 21]
  }

  /** A section cut at marks, the last piece to its end. */
  function Pieces(q: Bytes, marks: seq<nat>): (pieces: seq<Bytes>)
    requires forall i :: 0 < i < |marks| ==> marks[i - 1] <= marks[i]
    requires |marks| > 0 ==> marks[|marks| - 1] <= |q|
  {
    seq(|marks|, i requires 0 <= i < |marks| =>
      MarksBelow(marks, i);
      q[marks[i]..if i + 1 < |marks| then marks[i + 1] else |q|])
  }

  lemma {:induction false} MarksBelow(marks: seq<nat>, i: nat)
    requires i < |marks| && forall j :: 0 < j < |marks| ==> marks[j - 1] <= marks[j]
    ensures marks[i] <= marks[|marks| - 1]
    ensures i + 1 < |marks| ==> marks[i] <= marks[i + 1] <= marks[|marks| - 1]
    decreases |marks| - i
  {
    if i + 1 < |marks| { MarksBelow(marks, i + 1); }
  }

  // ---- what should be shown ----

  /** No row for extension data of no bytes. */
  function ShownLayout(layout: LayoutValue): seq<Bytes> {
    if layout.ExtensionValue? && layout.data == [] then LayoutFieldsOf(layout)[..2] else LayoutFieldsOf(layout)
  }

  /** A buffer's memory class and its reserved byte share a row. */
  function ShownHandle(h: Handle): seq<Bytes> {
    [WordBytes(h.byteSize, 8), WordBytes(h.alignment, 4), [h.device], [h.sync], [h.memoryClass] + Zeros(1)]
  }

  function ShownHandles(handles: seq<Handle>): seq<Bytes> {
    if handles == [] then [] else
    ShownHandles(handles[..|handles| - 1]) + ShownHandle(handles[|handles| - 1])
  }

  /** The decoder looks at a section only if it is long enough. */
  predicate Decodes(d: Descriptor, scheme: Option<QuantizationScheme>) {
    scheme.Some? ==> d.quantization.Some? && |d.quantization.value| >= SchemeBytes(scheme.value)
  }

  /** A decoded section is cut into its parameters; any other is one row, if it has bytes. */
  function ShownQuantization(q: Option<Bytes>, scheme: Option<QuantizationScheme>): seq<Bytes>
    requires scheme.Some? ==> q.Some? && |q.value| >= SchemeBytes(scheme.value)
  {
    if q.None? then [] else
    [WordBytes(|q.value| % D.U32_LIMIT, 4)] +
    if scheme.Some? then Pieces(q.value, Marks(scheme.value)) else if q.value == [] then [] else [q.value]
  }

  function ShownFields(d: Descriptor, length: nat, scheme: Option<QuantizationScheme>): seq<Bytes>
    requires Decodes(d, scheme)
  {
    FrontFields(d) + [WordBytes(length, 4)] + HeaderFields(d) + ShownLayout(d.layout) + [CountField(d)]
    + ShownHandles(d.handles) + ShownQuantization(d.quantization, scheme) + TailFields(d)
  }

  // ---- it is all of what was written ----

  lemma {:induction false} PiecesJoin(q: Bytes, marks: seq<nat>, k: nat)
    requires |marks| > 0 && marks[0] == 0 && marks[|marks| - 1] <= |q| && k <= |marks|
    requires forall i :: 0 < i < |marks| ==> marks[i - 1] <= marks[i]
    ensures k < |marks| ==> marks[k] <= |q|
    ensures Concat(Pieces(q, marks)[..k]) == q[..if k < |marks| then marks[k] else |q|]
  {
    hide Concat;
    if k == 0 {
      NoFields();
    } else {
      PiecesJoin(q, marks, k - 1);
      MarksBelow(marks, k - 1);
      if k < |marks| { MarksBelow(marks, k); }
      var pieces := Pieces(q, marks);
      var end := if k < |marks| then marks[k] else |q|;
      assert q[..marks[k - 1]] + q[marks[k - 1]..end] == q[..end];
      assert pieces[..k] == pieces[..k - 1] + [pieces[k - 1]];
      ConcatOne(pieces[..k - 1], pieces[k - 1]);
    }
  }

  lemma QuantizationBytesShown(q: Option<Bytes>, scheme: Option<QuantizationScheme>)
    requires scheme.Some? ==> q.Some? && |q.value| >= SchemeBytes(scheme.value)
    ensures Concat(ShownQuantization(q, scheme)) == Concat(QuantizationFields(q))
  {
    if q.Some? {
      var length := WordBytes(|q.value| % D.U32_LIMIT, 4);
      ConcatOne([length], q.value);
      assert [length] + [q.value] == [length, q.value];
      if scheme.Some? {
        var pieces := Pieces(q.value, Marks(scheme.value));
        PiecesJoin(q.value, Marks(scheme.value), |pieces|);
        assert pieces[..|pieces|] == pieces;
        ConcatPlus([length], pieces);
      } else if q.value == [] {
        assert Concat([length]) + [] == Concat([length]);
        assert [length] + [] == [length];
      }
    }
  }

  lemma {:induction false} HandleBytesShown(handles: seq<Handle>)
    ensures Concat(ShownHandles(handles)) == Concat(HandleFields(handles))
  {
    hide Concat, ShownHandle, OneHandle;
    if handles != [] {
      var n := |handles| - 1;
      HandleBytesShown(handles[..n]);
      OneHandleShown(handles[n]);
      ConcatPlus(ShownHandles(handles[..n]), ShownHandle(handles[n]));
      ConcatPlus(HandleFields(handles[..n]), OneHandle(handles[n]));
    }
  }

  lemma OneHandleShown(h: Handle)
    ensures Concat(ShownHandle(h)) == Concat(OneHandle(h))
  {
    hide Concat, WordBytes, Zeros;
    var fixed := [WordBytes(h.byteSize, 8), WordBytes(h.alignment, 4), [h.device], [h.sync]];
    SharedRow(fixed, [h.memoryClass], Zeros(1));
    assert ShownHandle(h) == fixed + [[h.memoryClass] + Zeros(1)];
    assert OneHandle(h) == fixed + [[h.memoryClass], Zeros(1)];
  }

  lemma SharedRow(fields: seq<Bytes>, a: Bytes, b: Bytes)
    ensures Concat(fields + [a + b]) == Concat(fields + [a, b])
  {
    ConcatOne(fields, a + b);
    ConcatOne(fields, a);
    ConcatOne(fields + [a], b);
    assert fields + [a] + [b] == fields + [a, b];
  }

  lemma LayoutBytesShown(layout: LayoutValue)
    ensures Concat(ShownLayout(layout)) == Concat(LayoutFieldsOf(layout))
  {
    if layout.ExtensionValue? && layout.data == [] {
      var fields := LayoutFieldsOf(layout);
      ConcatOne(fields[..2], fields[2]);
      assert fields[..2] + [fields[2]] == fields;
    }
  }

  lemma ConcatParts(a: seq<Bytes>, b: seq<Bytes>, c: seq<Bytes>, d: seq<Bytes>, e: seq<Bytes>, f: seq<Bytes>)
    ensures Concat(a + b + c + d + e + f) == Concat(a) + Concat(b) + Concat(c) + Concat(d) + Concat(e) + Concat(f)
  {
    ConcatPlus(a, b);
    ConcatPlus(a + b, c);
    ConcatPlus(a + b + c, d);
    ConcatPlus(a + b + c + d, e);
    ConcatPlus(a + b + c + d + e, f);
  }

  /** Nothing is left out and nothing is added. */
  lemma AllBytesShown(d: Descriptor, length: nat, scheme: Option<QuantizationScheme>)
    requires Decodes(d, scheme)
    ensures Concat(ShownFields(d, length, scheme)) == Concat(Fields(d, length))
  {
    hide Concat, WordBytes, FrontFields, HeaderFields, LayoutFieldsOf, ShownLayout, CountField, HandleFields, ShownHandles,
         QuantizationFields, ShownQuantization, TailFields;
    LayoutBytesShown(d.layout);
    HandleBytesShown(d.handles);
    QuantizationBytesShown(d.quantization, scheme);
    var front := FrontFields(d) + [WordBytes(length, 4)] + HeaderFields(d);
    ConcatParts(front, ShownLayout(d.layout), [CountField(d)], ShownHandles(d.handles),
                ShownQuantization(d.quantization, scheme), TailFields(d));
    ConcatParts(front, LayoutFieldsOf(d.layout), [CountField(d)], HandleFields(d.handles),
                QuantizationFields(d.quantization), TailFields(d));
    assert Fields(d, length) == front + LayoutFieldsOf(d.layout) + [CountField(d)] + HandleFields(d.handles)
                                + QuantizationFields(d.quantization) + TailFields(d);
  }

  // ---- and its fields have the widths of the rows ----

  ghost function Sizes(fields: seq<Bytes>): (ls: seq<nat>)
    ensures |ls| == |fields| && forall i :: 0 <= i < |fields| ==> ls[i] == |fields[i]|
  {
    seq(|fields|, i requires 0 <= i < |fields| => |fields[i]|)
  }

  lemma SizesPlus(a: seq<Bytes>, b: seq<Bytes>)
    ensures Sizes(a + b) == Sizes(a) + Sizes(b)
  {
  }

  lemma {:induction false} TiledSizes(t: TiledLayout)
    requires t.TagsAgree()
    ensures Sizes(TiledFields(t)) == TiledWidths(TiledOf(t))
    decreases t
  {
    if t.inner.Some? { TiledSizes(t.inner.value); }
  }

  lemma LayoutSizes(layout: LayoutValue)
    requires !layout.UnknownValue? && (layout.TiledValue? ==> layout.tiled.TagsAgree())
    ensures Sizes(ShownLayout(layout)) == LayoutWidths(LayoutOf(layout))
  {
    hide WordBytes, Zeros, Flag, LayerWord, TiledFields, TiledWidths;
    if layout.TiledValue? { TiledSizes(layout.tiled); }
  }

  lemma {:induction false} HandleSizes(handles: seq<Handle>)
    ensures Sizes(ShownHandles(handles)) == BufferWidths(|handles|)
  {
    if handles != [] { HandleSizes(handles[..|handles| - 1]); }
  }

  ghost function QuantizationWidthsOf(d: Descriptor, scheme: Option<QuantizationScheme>): seq<nat> {
    var q := SectionsOf(d, scheme).quantization;
    if q.Some? then QuantizationWidths(q.value) else []
  }

  /** What is decoded is all of the section. */
  ghost predicate SchemeFits(d: Descriptor, scheme: Option<QuantizationScheme>)
    requires Decodes(d, scheme)
  {
    scheme.Some? ==> |d.quantization.value| == SchemeBytes(scheme.value)
  }

  /** Widths that are covered one by one. */
  ghost predicate Within(a: seq<nat>, b: seq<nat>) {
    |a| == |b| && forall i :: 0 <= i < |a| ==> a[i] <= b[i]
  }

  /** Each piece of a decoded section is as long as its parameter; the last one also takes what is
      left. */
  lemma PieceSize(q: Bytes, scheme: QuantizationScheme, i: nat)
    requires |q| >= SchemeBytes(scheme) && i < |Marks(scheme)|
    ensures |QuantizationWidths(Decoded(scheme))| == |Marks(scheme)| + 1
    ensures |Pieces(q, Marks(scheme))[i]| == QuantizationWidths(Decoded(scheme))[i + 1]
                                             + if i + 1 == |Marks(scheme)| then |q| - SchemeBytes(scheme) else 0
  {
  }

  lemma PieceSizes(q: Bytes, scheme: QuantizationScheme)
    requires |q| >= SchemeBytes(scheme)
    ensures Within(QuantizationWidths(Decoded(scheme)), [4] + Sizes(Pieces(q, Marks(scheme))))
    ensures [4] + Sizes(Pieces(q, Marks(scheme))) == QuantizationWidths(Decoded(scheme)) <==> |q| == SchemeBytes(scheme)
  {
    var sizes, widths, n := [4] + Sizes(Pieces(q, Marks(scheme))), QuantizationWidths(Decoded(scheme)), |Marks(scheme)|;
    FirstIsFour(Decoded(scheme));
    hide Marks, Pieces, QuantizationWidths, SchemeBytes;
    PieceSize(q, scheme, n - 1);
    forall i | 0 < i <= n
      ensures sizes[i] == widths[i] + if i == n then |q| - SchemeBytes(scheme) else 0
    {
      PieceSize(q, scheme, i - 1);
    }
  }

  lemma FirstIsFour(q: Quantization)
    ensures QuantizationWidths(q) != [] && QuantizationWidths(q)[0] == 4
  {
  }

  lemma QuantizationSizes(d: Descriptor, scheme: Option<QuantizationScheme>)
    requires Decodes(d, scheme)
    ensures Within(QuantizationWidthsOf(d, scheme), Sizes(ShownQuantization(d.quantization, scheme)))
    ensures Sizes(ShownQuantization(d.quantization, scheme)) == QuantizationWidthsOf(d, scheme) <==> SchemeFits(d, scheme)
  {
    hide WordBytes, Pieces, Marks;
    if scheme.Some? {
      var q := d.quantization.value;
      PieceSizes(q, scheme.value);
      SizesPlus([WordBytes(|q| % D.U32_LIMIT, 4)], Pieces(q, Marks(scheme.value)));
      assert Sizes([WordBytes(|q| % D.U32_LIMIT, 4)]) == [4];
    }
  }

  lemma TailSizes(d: Descriptor)
    ensures Sizes(TailFields(d))
         == (if d.shard.Some? then Repeat(8, |d.shard.value.0|) + Repeat(8, |d.shard.value.1|) else [])
          + (if d.statistics.Some? then [4, 4, 8, 8, 8, 8, 8, 8, 8, 1, 1, 1, 1, 4] else [])
          + (if d.extension.Some? then [4, 1, 1, 1, 1, 1, 1, 2, 4, 1, 1, 2] else [])
          + (if d.role.Some? then [1, 15] else [])
  {
    hide WordBytes, Zeros, Flag;
    SizesPlus(ShardFields(d.shard), StatisticsSection(d.statistics));
    SizesPlus(ShardFields(d.shard) + StatisticsSection(d.statistics), ExtensionSection(d.extension));
    SizesPlus(ShardFields(d.shard) + StatisticsSection(d.statistics) + ExtensionSection(d.extension), RoleFields(d.role));
    if d.statistics.Some? { StatisticsSizes(d.statistics.value); }
    if d.extension.Some? { ExtensionSizes(d.extension.value); }
    ShardSizes(d.shard);
  }

  lemma ShardSizes(shard: Option<(seq<U64>, seq<U64>)>)
    ensures Sizes(ShardFields(shard)) == if shard.Some? then Repeat(8, |shard.value.0|) + Repeat(8, |shard.value.1|) else []
  {
    hide WordBytes;
  }

  lemma StatisticsSizes(s: Statistics)
    ensures Sizes(StatisticsFields(s)) == [4, 4, 8, 8, 8, 8, 8, 8, 8, 1, 1, 1, 1, 4]
  {
    hide WordBytes, Zeros, Flag;
  }

  lemma ExtensionSizes(x: ExtensionType)
    ensures Sizes(ExtensionFields(x)) == [4, 1, 1, 1, 1, 1, 1, 2, 4, 1, 1, 2]
  {
    hide WordBytes, Zeros, Flag;
  }

  /** A descriptor that its constructor let through, as far as the encoder relies on it. */
  predicate Constructed(d: Descriptor) {
    d.layout.TiledValue? ==> d.layout.tiled.TagsAgree()
  }

  function BeforeFields(d: Descriptor, length: nat): seq<Bytes> {
    FrontFields(d) + [WordBytes(length, 4)] + HeaderFields(d) + ShownLayout(d.layout) + [CountField(d)] + ShownHandles(d.handles)
  }

  ghost function BeforeWidths(d: Descriptor): seq<nat> {
    HeaderWidths(|d.dims|) + LayoutWidths(LayoutOf(d.layout)) + [1] + BufferWidths(|d.handles|)
  }

  lemma HeaderSizes(d: Descriptor, length: nat)
    ensures Sizes(FrontFields(d) + [WordBytes(length, 4)] + HeaderFields(d)) == HeaderWidths(|d.dims|)
  {
    hide WordBytes;
  }

  lemma BeforeSizes(d: Descriptor, length: nat)
    requires Constructed(d) && !d.layout.UnknownValue?
    ensures Sizes(BeforeFields(d, length)) == BeforeWidths(d)
  {
    hide WordBytes, FrontFields, HeaderFields, HeaderWidths, ShownLayout, LayoutWidths, ShownHandles, BufferWidths, LayoutOf;
    var header := FrontFields(d) + [WordBytes(length, 4)] + HeaderFields(d);
    HeaderSizes(d, length);
    LayoutSizes(d.layout);
    HandleSizes(d.handles);
    SizesPlus(header, ShownLayout(d.layout));
    SizesPlus(header + ShownLayout(d.layout), [CountField(d)]);
    SizesPlus(header + ShownLayout(d.layout) + [CountField(d)], ShownHandles(d.handles));
  }

  /** What is shown has at least the widths of the rows, and exactly those if a decoded quantization
      section is as long as its scheme. */
  lemma ShownSizes(d: Descriptor, length: nat, scheme: Option<QuantizationScheme>)
    requires Decodes(d, scheme) && Constructed(d) && !d.layout.UnknownValue?
    ensures Within(AllWidths(SectionsOf(d, scheme)), Sizes(ShownFields(d, length, scheme)))
    ensures Sizes(ShownFields(d, length, scheme)) == AllWidths(SectionsOf(d, scheme)) <==> SchemeFits(d, scheme)
  {
    hide BeforeFields, BeforeWidths, ShownQuantization, QuantizationWidthsOf, TailFields, SchemeFits;
    BeforeSizes(d, length);
    QuantizationSizes(d, scheme);
    var before, middle, tail := BeforeFields(d, length), ShownQuantization(d.quantization, scheme), TailFields(d);
    SizesPlus(before, middle);
    SizesPlus(before + middle, tail);
    ShownInThree(d, length, scheme);
    WidthsInThree(d, scheme);
    SameInside(Sizes(before), Sizes(middle), QuantizationWidthsOf(d, scheme), Sizes(tail));
  }

  lemma ShownInThree(d: Descriptor, length: nat, scheme: Option<QuantizationScheme>)
    requires Decodes(d, scheme)
    ensures ShownFields(d, length, scheme) == BeforeFields(d, length) + ShownQuantization(d.quantization, scheme) + TailFields(d)
  {
  }

  lemma WidthsInThree(d: Descriptor, scheme: Option<QuantizationScheme>)
    ensures AllWidths(SectionsOf(d, scheme)) == BeforeWidths(d) + QuantizationWidthsOf(d, scheme) + Sizes(TailFields(d))
  {
    hide HeaderWidths, LayoutWidths, BufferWidths, QuantizationWidthsOf, TrailerWidths, TailFields, LayoutOf;
    TrailerOf(d, scheme);
  }

  lemma TrailerOf(d: Descriptor, scheme: Option<QuantizationScheme>)
    ensures TrailerWidths(SectionsOf(d, scheme))
         == [1] + BufferWidths(|d.handles|) + QuantizationWidthsOf(d, scheme) + Sizes(TailFields(d))
  {
    hide BufferWidths, QuantizationWidths, TailFields, LayoutOf;
    TailSizes(d);
    var table := [1] + BufferWidths(|d.handles|) + QuantizationWidthsOf(d, scheme);
    var shard := if d.shard.Some? then Repeat(8, |d.shard.value.0|) + Repeat(8, |d.shard.value.1|) else [];
    var statistics := if d.statistics.Some? then [4, 4, 8, 8, 8, 8, 8, 8, 8, 1, 1, 1, 1, 4] else [];
    var extension := if d.extension.Some? then [4, 1, 1, 1, 1, 1, 1, 2, 4, 1, 1, 2] else [];
    var role := if d.role.Some? then [1, 15] else [];
    FourMore(table, shard, statistics, extension, role);
  }

  lemma FourMore(a: seq<nat>, b: seq<nat>, c: seq<nat>, d: seq<nat>, e: seq<nat>)
    ensures a + b + c + d + e == a + (b + c + d + e)
  {
  }

  lemma SameInside(a: seq<nat>, b: seq<nat>, c: seq<nat>, e: seq<nat>)
    requires Within(c, b)
    ensures Within(a + c + e, a + b + e)
    ensures a + b + e == a + c + e <==> b == c
  {
    if a + b + e == a + c + e {
      assert (a + b + e)[|a|..|a| + |b|] == b && (a + c + e)[|a|..|a| + |c|] == c;
    }
  }

  // ---- the rows of what was written ----

  /** Row by row, the bytes of the fields. */
  ghost predicate Shows(rows: seq<Row>, fields: seq<Bytes>) {
    |rows| == |fields| && forall i :: 0 <= i < |rows| ==> rows[i].bytes == fields[i]
  }

  lemma {:induction false} SumWithin(a: seq<nat>, b: seq<nat>)
    requires Within(a, b)
    ensures Sum(a) <= Sum(b)
  {
    if a != [] { SumWithin(a[..|a| - 1], b[..|b| - 1]); }
  }

  lemma {:induction false} SumOfSizes(fields: seq<Bytes>)
    ensures Sum(Sizes(fields)) == |Concat(fields)|
  {
    if fields != [] {
      var n := |fields| - 1;
      SumOfSizes(fields[..n]);
      assert Sizes(fields)[..n] == Sizes(fields[..n]);
    }
  }

  /** Rows of the right lengths that together are the bytes of the fields show the fields. */
  lemma {:induction false} RowsOfSizes(rows: seq<Row>, fields: seq<Bytes>)
    requires Lengths(rows) == Sizes(fields) && Reader.Bytes(rows) == Concat(fields)
    ensures Shows(rows, fields)
  {
    if rows != [] {
      var n := |rows| - 1;
      assert |rows[n].bytes| == Lengths(rows)[n] == |fields[n]|;
      var a, b := Reader.Bytes(rows[..n]), Concat(fields[..n]);
      assert a + rows[n].bytes == b + fields[n];
      assert a == (a + rows[n].bytes)[..|a|] && b == (b + fields[n])[..|b|];
      assert Lengths(rows[..n]) == Lengths(rows)[..n] == Sizes(fields)[..n] == Sizes(fields[..n]);
      RowsOfSizes(rows[..n], fields[..n]);
      assert rows[n].bytes == (a + rows[n].bytes)[|a|..];
    }
  }

  /** An encoded descriptor says how long it is. */
  lemma EncodedLength(d: Descriptor, bytes: Bytes)
    requires bytes == Concat(Fields(d, |bytes|)) && |bytes| < D.U32_LIMIT
    ensures |bytes| >= 10 && DescriptorLength(bytes) == |bytes|
  {
    hide Concat, WordBytes, DescriptorLength, LittleEndian;
    var front, word := MAGIC + [d.major] + [d.minor], WordBytes(|bytes|, 4);
    LengthInPlace(d, |bytes|);
    Patched(front, word, Concat(AfterLength(d)), bytes, word);
    LengthIsNumber(bytes);
    ByteLimits();
    WordRoundTrip(|bytes|, 4);
  }

  lemma RowsDecide(d: Descriptor, scheme: Option<QuantizationScheme>, bytes: Bytes, rows: seq<Row>, base: nat)
    requires Decodes(d, scheme) && Constructed(d) && !d.layout.UnknownValue?
    requires bytes == Concat(Fields(d, |bytes|))
    requires Tiles(rows, bytes, base, |bytes|)
    requires Lengths(rows) == ExpectedLengths(AllWidths(SectionsOf(d, scheme)), |bytes|)
    ensures Shows(rows, ShownFields(d, |bytes|, scheme)) <==> SchemeFits(d, scheme)
  {
    hide SchemeFits, AllWidths, SectionsOf, ShownFields, Fields, Concat, Sum;
    var fields, widths := ShownFields(d, |bytes|, scheme), AllWidths(SectionsOf(d, scheme));
    ShownSizes(d, |bytes|, scheme);
    AllBytesShown(d, |bytes|, scheme);
    SumOfSizes(fields);
    SumWithin(widths, Sizes(fields));
    if SchemeFits(d, scheme) {
      assert widths + [] == widths;
      RowsOfSizes(rows, fields);
    }
    if Shows(rows, fields) {
      assert Lengths(rows) == Sizes(fields);
    }
  }

  /** What fits in the rows fits in the bytes. */
  lemma FieldsFit(d: Descriptor, scheme: Option<QuantizationScheme>, bytes: Bytes)
    requires Decodes(d, scheme) && Constructed(d) && !d.layout.UnknownValue?
    requires bytes == Concat(Fields(d, |bytes|))
    ensures Sum(AllWidths(SectionsOf(d, scheme))) <= |bytes|
  {
    hide AllWidths, SectionsOf, ShownFields, Fields, Concat;
    var fields := ShownFields(d, |bytes|, scheme);
    ShownSizes(d, |bytes|, scheme);
    AllBytesShown(d, |bytes|, scheme);
    SumOfSizes(fields);
    SumWithin(AllWidths(SectionsOf(d, scheme)), Sizes(fields));
  }

  /** A descriptor is written and inspected. The rows are all of its bytes, and they are the written
      fields, each in a row of its own, if and only if what the decoder made of the quantization
      section is all of it. */
  method ShowEncoded(d: Descriptor, scheme: Option<QuantizationScheme>, base: nat) returns (r: Encoded, rows: seq<Row>)
    requires Decodes(d, scheme) && Constructed(d)
    ensures r.Failed? <==> Failure(d).Some?
    ensures r.Written? ==> r.bytes == Concat(Fields(d, |r.bytes|)) && Tiles(rows, r.bytes, base, |r.bytes|)
    ensures r.Written? ==> (Shows(rows, ShownFields(d, |r.bytes|, scheme)) <==> SchemeFits(d, scheme))
  {
    hide AllWidths, SectionsOf, Fields, ShownFields, SchemeFits, Concat, DescriptorLength;
    r := Encode(d);
    rows := [];
    if r.Written? {
      EncodedLength(d, r.bytes);
      FieldsFit(d, scheme, r.bytes);
      rows := DescriptorRows(r.bytes, SectionsOf(d, scheme), base);
      RowsDecide(d, scheme, r.bytes, rows, base);
    }
  }
}
