/** Showing a tensor's elements: which bytes each shown value comes from, and in what order
    the values are nested. */
module Display {
  import opened Shapes
  import opened Boxes
  import opened Packing
  import opened RowMajor

  datatype ElementType =
    | Bool
    | Int2 | Uint2
    | Int4 | Uint4 | Float4E2M1
    | Float6E2M3 | Float6E3M2
    | Int8 | Uint8 | Float8E4M3 | Float8E5M2 | Float8E8M0
    | Int16 | Uint16 | Float16 | BFloat16
    | Int32 | Uint32 | Float32
    | Int64 | Uint64 | Float64 | Complex64
    | Float128 | Complex128
    | Extension(tag: nat)

  function BitWidth(et: ElementType): nat {
    match et
    case Bool => 1
    case Int2 | Uint2 => 2
    case Int4 | Uint4 | Float4E2M1 => 4
    case Float6E2M3 | Float6E3M2 => 6
    case Int8 | Uint8 | Float8E4M3 | Float8E5M2 | Float8E8M0 => 8
    case Int16 | Uint16 | Float16 | BFloat16 => 16
    case Int32 | Uint32 | Float32 => 32
    case Int64 | Uint64 | Float64 | Complex64 => 64
    case Float128 | Complex128 => 128
    case Extension(_) => 0
  }

  /** Bytes needed for a number of elements, before any word limit. */
  function BufferSize(et: ElementType, count: nat): nat {
    var bits := BitWidth(et);
    if bits == 0 then 0
    else if bits >= 8 then count * (bits / 8)
    else if bits == 6 then (count + 3) / 4 * 3
    else (count * bits + 7) / 8
  }

  /** What a shown value is made of: a packed code, whole bytes, or the mark for "not there". */
  datatype Shown = Question | Code(code: bv8) | Raw(bytes: seq<bv8>)

  function FromCode(code: Option<bv8>): Shown {
    if code.Some? then Code(code.value) else Question
  }

  /** Element `idx` of `n` bytes each. */
  function WholeBytes(data: seq<bv8>, idx: nat, n: nat): Shown {
    var i := idx * n;
    if i + n <= |data| then Raw(data[i..i + n]) else Question
  }

  /** The element at `idx`. An extension type is shown byte by byte. */
  function FormatScalar(et: ElementType, data: seq<bv8>, idx: nat): Shown {
    var bits := BitWidth(et);
    if bits == 1 || bits == 2 || bits == 4 then FromCode(ReadPow2Code(data, idx, bits))
    else if bits == 6 then FromCode(ReadF6Code(data, idx))
    else WholeBytes(data, idx, if bits == 0 then 1 else bits / 8)
  }

  // ---- every element of a well-sized buffer is there ----

  /** Block `i` ends within the whole. */
  lemma BlockInside(i: nat, n: nat, stride: nat)
    requires i < n
    ensures i * stride + stride <= n * stride
  {
    MulMonotone(i + 1, n, stride, stride);
    assert (i + 1) * stride == i * stride + stride;
  }

  lemma SubByteThere(idx: nat, count: nat, bits: nat)
    requires (bits == 1 || bits == 2 || bits == 4) && idx < count
    ensures idx * bits < 8 * ((count * bits + 7) / 8)
  {
  }

  lemma Pow2There(data: seq<bv8>, count: nat, idx: nat, bits: nat)
    requires (bits == 1 || bits == 2 || bits == 4) && idx < count && |data| == (count * bits + 7) / 8
    ensures ReadPow2Code(data, idx, bits).Some?
  {
    SubByteThere(idx, count, bits);
    Pow2CodeIsDigit(data, idx, bits);
  }

  lemma F6There(data: seq<bv8>, count: nat, idx: nat)
    requires idx < count && |data| == (count + 3) / 4 * 3
    ensures ReadF6Code(data, idx).Some? && idx / 4 * 3 + 2 < |data|
  {
    F6CodeIsDigit(data, idx);
  }

  /** In a buffer of exactly the computed size, every element of a built-in type is shown, and
      a six-bit group always has all three of its bytes. */
  lemma EveryElementThere(et: ElementType, data: seq<bv8>, count: nat, idx: nat)
    requires !et.Extension? && |data| == BufferSize(et, count) && idx < count
    ensures FormatScalar(et, data, idx) != Question
    ensures BitWidth(et) == 6 ==> idx / 4 * 3 + 2 < |data|
  {
    var bits := BitWidth(et);
    if bits >= 8 {
      BlockInside(idx, count, bits / 8);
    } else if bits == 6 {
      F6There(data, count, idx);
    } else {
      Pow2There(data, count, idx, bits);
    }
  }

  /** An extension type's size is not known here: its buffer counts as empty, and every element
      shows as missing. */
  lemma ExtensionNotThere(tag: nat, data: seq<bv8>, count: nat, idx: nat)
    requires |data| == BufferSize(Extension(tag), count)
    ensures FormatScalar(Extension(tag), data, idx) == Question
  {
  }

  // ---- and no buffer is larger than it must be ----

  /** Six-bit elements come in groups of three bytes. */
  function SizeUnit(et: ElementType): nat {
    if BitWidth(et) == 6 then 3 else 1
  }

  lemma LeastBytes(bits: nat, n: nat, m: nat)
    requires n == (bits + 7) / 8
    ensures 8 * n >= bits && (8 * m >= bits ==> n <= m)
  {
  }

  lemma LeastGroups(count: nat, m: nat)
    ensures 8 * ((count + 3) / 4 * 3) >= count * 6
    ensures m % 3 == 0 && 8 * m >= count * 6 ==> (count + 3) / 4 * 3 <= m
  {
  }

  /** The computed size is the least whole number of units that has a bit for every bit of the
      elements. */
  lemma SizeIsLeast(et: ElementType, count: nat, n: nat)
    requires !et.Extension?
    ensures BufferSize(et, count) % SizeUnit(et) == 0 && 8 * BufferSize(et, count) >= count * BitWidth(et)
    ensures n % SizeUnit(et) == 0 && 8 * n >= count * BitWidth(et) ==> BufferSize(et, count) <= n
  {
    var bits := BitWidth(et);
    if bits >= 8 {
      WholeBits(count, bits);
    } else if bits == 6 {
      LeastGroups(count, n);
    } else {
      LeastBytes(count * bits, BufferSize(et, count), n);
    }
  }

  lemma WholeBits(count: nat, bits: nat)
    requires bits % 8 == 0
    ensures 8 * (count * (bits / 8)) == count * bits
  {
    MulAssoc(count, bits / 8, 8);
  }

  lemma LastByteOf(count: nat, bits: nat, n: nat)
    requires (bits == 1 || bits == 2 || bits == 4) && count > 0
    ensures (count - 1) * bits < 8 * n <==> n >= (count * bits + 7) / 8
  {
  }

  lemma LastBlock(count: nat, n: nat)
    requires count > 0
    ensures (count - 1) * n + n == count * n
  {
  }

  lemma LastGroupOf(count: nat, n: nat)
    requires count > 0
    ensures (count - 1) / 4 * 3 < n <==> n > (count + 3) / 4 * 3 - 3
  {
  }

  /** Whether the last element is shown tells whether the buffer has its last unit, or some byte of
      it for the padded six-bit groups: one unit less than the computed size is too little. */
  lemma LastElementThere(et: ElementType, data: seq<bv8>, count: nat)
    requires !et.Extension? && count > 0
    ensures FormatScalar(et, data, count - 1) != Question <==> |data| > BufferSize(et, count) - SizeUnit(et)
  {
    hide ReadPow2Code, ReadF6Code, Digit, LittleEndian;
    var bits := BitWidth(et);
    if bits >= 8 {
      LastBlock(count, bits / 8);
    } else if bits == 6 {
      F6CodeIsDigit(data, count - 1);
      LastGroupOf(count, |data|);
    } else {
      Pow2CodeIsDigit(data, count - 1, bits);
      LastByteOf(count, bits, |data|);
    }
  }

  // ---- nested display ----

  const NUMPY_THRESHOLD: nat := 1000

  /** Bracketed text: a value, a row of parts, or the shortened form of a long tensor. */
  datatype Text = Value(shown: Shown) | Row(parts: seq<Text>) | Elided(head: seq<Shown>, tail: seq<Shown>)

  /** The nested form from dimension `depth` on. */
  function FormatDim(et: ElementType, shape: seq<nat>, data: seq<bv8>, depth: nat, offset: nat): Text
    requires depth < |shape|
    decreases |shape| - depth
  {
    if depth == |shape| - 1 then
      Row(seq(shape[depth], i requires 0 <= i < shape[depth] => Value(FormatScalar(et, data, offset + i))))
    else
      var stride := Product(shape[depth + 1..]);
      Row(seq(shape[depth], i requires 0 <= i < shape[depth] => FormatDim(et, shape, data, depth + 1, offset + i * stride)))
  }

  /** Consecutive elements from `offset` on. */
  function Flat(et: ElementType, data: seq<bv8>, offset: nat, count: nat): seq<Shown> {
    seq(count, i requires 0 <= i < count => FormatScalar(et, data, offset + i))
  }

  /** The whole display. */
  function FormatNumpy(et: ElementType, shape: seq<nat>, data: seq<bv8>): Text {
    var total := Product(shape);
    if total == 0 then Row([])
    else if shape == [] then Value(FormatScalar(et, data, 0))
    else if total > NUMPY_THRESHOLD then
      Elided(Flat(et, data, 0, 3), Flat(et, data, total - 3, 3))
    else FormatDim(et, shape, data, 0, 0)
  }

  /** The values of a text in reading order. */
  ghost function Reading(t: Text): seq<Shown>
    decreases t, 1
  {
    match t
    case Value(s) => [s]
    case Row(parts) => ReadingAll(parts)
    case Elided(head, tail) => head + tail
  }

  ghost function ReadingAll(parts: seq<Text>): seq<Shown>
    decreases parts, 0
  {
    if parts == [] then [] else Reading(parts[0]) + ReadingAll(parts[1..])
  }

  /** The part of a text at a path. */
  ghost function At(t: Text, path: Index): Option<Text> {
    if path == [] then Some(t)
    else if t.Row? && path[0] < |t.parts| then At(t.parts[path[0]], path[1..])
    else None
  }

  /** Part `i` shows the `stride` elements from `offset + i * stride` on. */
  ghost predicate Blocks(et: ElementType, data: seq<bv8>, parts: seq<Text>, offset: nat, stride: nat) {
    forall i: nat :: i < |parts| ==> Reading(parts[i]) == Flat(et, data, offset + i * stride, stride)
  }

  lemma BlocksTail(et: ElementType, data: seq<bv8>, parts: seq<Text>, offset: nat, stride: nat)
    requires parts != [] && Blocks(et, data, parts, offset, stride)
    ensures Reading(parts[0]) == Flat(et, data, offset, stride)
    ensures Blocks(et, data, parts[1..], offset + stride, stride)
  {
    assert Reading(parts[0]) == Flat(et, data, offset + 0 * stride, stride);
    forall i: nat | i < |parts[1..]|
      ensures Reading(parts[1..][i]) == Flat(et, data, offset + stride + i * stride, stride)
    {
      assert parts[1..][i] == parts[i + 1];
      assert offset + (i + 1) * stride == offset + stride + i * stride;
    }
  }

  lemma {:induction false} ReadingBlocks(et: ElementType, data: seq<bv8>, parts: seq<Text>, offset: nat, stride: nat)
    requires Blocks(et, data, parts, offset, stride)
    ensures ReadingAll(parts) == Flat(et, data, offset, |parts| * stride)
  {
    if parts != [] {
      var rest := |parts| - 1;
      BlocksTail(et, data, parts, offset, stride);
      ReadingBlocks(et, data, parts[1..], offset + stride, stride);
      MulSuccessor(rest, stride);
      FlatSplit(et, data, offset, stride, rest * stride);
    }
  }

  lemma FlatSplit(et: ElementType, data: seq<bv8>, offset: nat, a: nat, b: nat)
    ensures Flat(et, data, offset, a + b) == Flat(et, data, offset, a) + Flat(et, data, offset + a, b)
  {
  }

  /** Read left to right, the nested form shows the elements of its block in memory order, each
      exactly once. */
  lemma {:induction false} NestedReadsFlat(et: ElementType, shape: seq<nat>, data: seq<bv8>, depth: nat, offset: nat)
    requires depth < |shape|
    ensures Reading(FormatDim(et, shape, data, depth, offset)) == Flat(et, data, offset, Product(shape[depth..]))
    decreases |shape| - depth
  {
    var t := FormatDim(et, shape, data, depth, offset);
    var stride := Product(shape[depth + 1..]);
    assert shape[depth..][1..] == shape[depth + 1..];
    forall i: nat | i < |t.parts|
      ensures Reading(t.parts[i]) == Flat(et, data, offset + i * stride, stride)
    {
      if depth == |shape| - 1 {
        assert shape[depth + 1..] == [];
        assert i * stride == i;
      } else {
        NestedReadsFlat(et, shape, data, depth + 1, offset + i * stride);
      }
    }
    ReadingBlocks(et, data, t.parts, offset, stride);
  }

  /** The value nested under path `x` is the element at the row-major offset of `x`. */
  lemma {:induction false} NestedAtPath(et: ElementType, shape: seq<nat>, data: seq<bv8>, depth: nat, offset: nat, x: Index)
    requires depth < |shape| && IsCell(x, shape[depth..])
    ensures At(FormatDim(et, shape, data, depth, offset), x)
         == Some(Value(FormatScalar(et, data, offset + Offset(shape[depth..], x))))
    decreases |shape| - depth
  {
    var stride := Product(shape[depth + 1..]);
    assert shape[depth..][1..] == shape[depth + 1..];
    assert x[0] < shape[depth];
    if depth == |shape| - 1 {
      assert shape[depth + 1..] == [];
      assert x[1..] == [];
    } else {
      assert IsCell(x[1..], shape[depth + 1..]);
      NestedAtPath(et, shape, data, depth + 1, offset + x[0] * stride, x[1..]);
    }
  }

  // ---- nothing is shown as missing ----

  ghost predicate NothingMissing(shown: seq<Shown>) {
    forall i :: 0 <= i < |shown| ==> shown[i] != Question
  }

  lemma FlatComplete(et: ElementType, data: seq<bv8>, total: nat)
    requires !et.Extension? && |data| == BufferSize(et, total)
    ensures forall idx: nat :: idx < total ==> FormatScalar(et, data, idx) != Question
    ensures NothingMissing(Flat(et, data, 0, total))
  {
    forall idx: nat | idx < total
      ensures FormatScalar(et, data, idx) != Question
    {
      EveryElementThere(et, data, total, idx);
    }
  }

  /** The display reads as all elements in order, or as the first and last three. */
  lemma NumpyReads(et: ElementType, shape: seq<nat>, data: seq<bv8>)
    requires Product(shape) > 0
    ensures Reading(FormatNumpy(et, shape, data)) ==
            if shape == [] || Product(shape) <= NUMPY_THRESHOLD then Flat(et, data, 0, Product(shape))
            else Flat(et, data, 0, 3) + Flat(et, data, Product(shape) - 3, 3)
  {
    if shape != [] && Product(shape) <= NUMPY_THRESHOLD {
      assert shape[0..] == shape;
      NestedReadsFlat(et, shape, data, 0, 0);
    }
  }

  /** A tensor shown from a buffer of its computed size has no missing value, whether it is nested,
      shortened or a scalar, exactly if its type is built in or it has no elements. */
  lemma DisplayComplete(et: ElementType, shape: seq<nat>, data: seq<bv8>)
    requires |data| == BufferSize(et, Product(shape))
    ensures NothingMissing(Reading(FormatNumpy(et, shape, data))) <==> !et.Extension? || Product(shape) == 0
  {
    var total := Product(shape);
    if total > 0 {
      NumpyReads(et, shape, data);
      if et.Extension? {
        ExtensionNotThere(et.tag, data, total, 0);
        assert Reading(FormatNumpy(et, shape, data))[0] == FormatScalar(et, data, 0);
      } else {
        FlatComplete(et, data, total);
      }
    }
  }

  // ---- the same in 64-bit words ----

  /** A word, or nothing where the arithmetic of the display would overflow. */
  function Fit(n: nat): Option<U64> {
    if n < U64_LIMIT then Some(n) else None
  }

  /** The product of dimensions, if it can be had in words. */
  ghost function CheckedProduct(dims: seq<nat>): Option<U64> {
    if PrefixesFit(dims) then assert dims[..|dims|] == dims; Some(Product(dims)) else None
  }

  function CheckedSize(et: ElementType, count: U64): Option<U64> {
    var bits := BitWidth(et);
    if bits == 0 then Some(0)
    else if bits >= 8 then Fit(count * (bits / 8))
    else if bits == 6 then Some((count / 4 + if count % 4 == 0 then 0 else 1) * 3)
    else Some((count * bits + 7) / 8)
  }

  function CheckedBytes(data: seq<bv8>, idx: U64, n: nat): Option<Shown> {
    var i := Fit(idx * n);
    if i.None? then None else
    var end := Fit(i.value + n);
    if end.None? then None else Some(if end.value <= |data| then Raw(data[i.value..end.value]) else Question)
  }

  /** Only the position of a whole-byte element can overflow. */
  function CheckedScalar(et: ElementType, data: seq<bv8>, idx: U64): Option<Shown> {
    if BitWidth(et) == 0 then CheckedBytes(data, idx, 1)
    else if BitWidth(et) >= 8 then CheckedBytes(data, idx, BitWidth(et) / 8)
    else Some(FormatScalar(et, data, idx))
  }

  function CheckedValue(et: ElementType, data: seq<bv8>, idx: nat): Option<Text> {
    var word := Fit(idx);
    if word.None? then None else
    var shown := CheckedScalar(et, data, word.value);
    if shown.None? then None else Some(Value(shown.value))
  }

  /** A row, unless one of its parts is missing. */
  function CheckedRow(parts: seq<Option<Text>>): Option<Text> {
    if exists i :: 0 <= i < |parts| && parts[i].None? then None
    else Some(Row(seq(|parts|, i requires 0 <= i < |parts| => parts[i].value)))
  }

  function CheckedValues(et: ElementType, data: seq<bv8>, offset: nat, n: nat): (parts: seq<Option<Text>>)
    ensures |parts| == n && forall i :: 0 <= i < n ==> parts[i] == CheckedValue(et, data, offset + i)
  {
    seq(n, i requires 0 <= i < n => CheckedValue(et, data, offset + i))
  }

  ghost function CheckedDim(et: ElementType, shape: seq<nat>, data: seq<bv8>, depth: nat, offset: nat): Option<Text>
    requires depth < |shape|
    decreases |shape| - depth, 1
  {
    if depth == |shape| - 1 then
      CheckedRow(CheckedValues(et, data, offset, shape[depth]))
    else
      var stride := CheckedProduct(shape[depth + 1..]);
      if stride.None? then None else CheckedRow(CheckedBlocks(et, shape, data, depth, offset, stride.value))
  }

  ghost function CheckedBlocks(et: ElementType, shape: seq<nat>, data: seq<bv8>, depth: nat, offset: nat, stride: nat): (parts: seq<Option<Text>>)
    requires depth + 1 < |shape|
    ensures |parts| == shape[depth]
    decreases |shape| - depth, 0
  {
    seq(shape[depth], i requires 0 <= i < shape[depth] =>
      if offset + i * stride >= U64_LIMIT then None else CheckedDim(et, shape, data, depth + 1, offset + i * stride))
  }

  /** Consecutive elements, unless the position of one overflows. */
  function CheckedFlat(et: ElementType, data: seq<bv8>, offset: nat, count: nat): Option<seq<Shown>>
    requires offset + count <= U64_LIMIT
  {
    if exists k :: offset <= k < offset + count && CheckedScalar(et, data, k).None? then None
    else Some(seq(count, i requires 0 <= i < count => CheckedScalar(et, data, offset + i).value))
  }

  /** The whole display with every step checked. */
  ghost function CheckedNumpy(et: ElementType, shape: seq<U64>, data: seq<bv8>): Option<Text> {
    var product := CheckedProduct(shape);
    if product.None? then None else
    var total := product.value;
    if total == 0 then Some(Row([]))
    else if shape == [] then CheckedValue(et, data, 0)
    else if total > NUMPY_THRESHOLD then
      var head, tail := CheckedFlat(et, data, 0, 3), CheckedFlat(et, data, total - 3, 3);
      if head.None? || tail.None? then None else Some(Elided(head.value, tail.value))
    else CheckedDim(et, shape, data, 0, 0)
  }

  lemma CheckedSizeDecides(et: ElementType, count: U64)
    ensures CheckedSize(et, count) == Fit(BufferSize(et, count))
  {
    if BitWidth(et) == 6 {
      assert count / 4 + (if count % 4 == 0 then 0 else 1) == (count + 3) / 4;
    }
  }

  /** Positions inside a buffer whose size is a word do not overflow. */
  lemma CheckedScalarFits(et: ElementType, data: seq<bv8>, count: U64, idx: nat)
    requires !et.Extension? && |data| == BufferSize(et, count) < U64_LIMIT && idx < count
    ensures CheckedScalar(et, data, idx) == Some(FormatScalar(et, data, idx))
    ensures CheckedValue(et, data, idx) == Some(Value(FormatScalar(et, data, idx)))
  {
    if BitWidth(et) >= 8 { CheckedBytesFit(data, idx, count, BitWidth(et) / 8); }
  }

  lemma CheckedBytesFit(data: seq<bv8>, idx: U64, count: nat, n: nat)
    requires |data| == count * n < U64_LIMIT && idx < count
    ensures CheckedBytes(data, idx, n) == Some(WholeBytes(data, idx, n))
  {
    BlockInside(idx, count, n);
  }

  /** Without empty dimensions, the products of a suffix fit when the whole product does. */
  lemma SuffixFits(dims: seq<nat>, k: nat)
    requires k <= |dims| && 0 !in dims && Product(dims) < U64_LIMIT
    ensures CheckedProduct(dims[k..]) == Some(Product(dims[k..]))
  {
    PrefixBelow(dims, k);
    forall i | 0 <= i <= |dims[k..]|
      ensures Product(dims[k..][..i]) < U64_LIMIT
    {
      PrefixBelow(dims[k..], i);
    }
  }

  lemma CheckedRowOf(parts: seq<Option<Text>>, texts: seq<Text>)
    requires |parts| == |texts| && forall i :: 0 <= i < |parts| ==> parts[i] == Some(texts[i])
    ensures CheckedRow(parts) == Some(Row(texts))
  {
    assert CheckedRow(parts).value.parts == texts;
  }

  /** Every element below `total` is shown without an overflow. */
  ghost predicate ValuesFit(et: ElementType, data: seq<bv8>, total: nat) {
    forall idx: nat :: idx < total ==> CheckedValue(et, data, idx) == Some(Value(FormatScalar(et, data, idx)))
  }

  lemma CheckedLastFits(et: ElementType, shape: seq<nat>, data: seq<bv8>, offset: nat, total: nat)
    requires ValuesFit(et, data, total)
    requires shape != [] && offset + shape[|shape| - 1] <= total
    ensures CheckedDim(et, shape, data, |shape| - 1, offset) == Some(FormatDim(et, shape, data, |shape| - 1, offset))
  {
    var parts := CheckedValues(et, data, offset, shape[|shape| - 1]);
    var texts := FormatDim(et, shape, data, |shape| - 1, offset).parts;
    CheckedRowOf(parts, texts);
  }

  /** Block `i` of a dimension starts and ends within the whole. */
  lemma BlocksFit(shape: seq<nat>, depth: nat, offset: nat, total: nat, i: nat)
    requires depth < |shape| && i < shape[depth] && offset + Product(shape[depth..]) <= total
    ensures offset + i * Product(shape[depth + 1..]) + Product(shape[depth + 1..]) <= total
  {
    assert shape[depth..][1..] == shape[depth + 1..];
    BlockInside(i, shape[depth], Product(shape[depth + 1..]));
  }

  /** Block `i` below dimension `depth` is shown without an overflow. */
  ghost predicate BlockShown(et: ElementType, shape: seq<nat>, data: seq<bv8>, depth: nat, offset: nat, stride: nat, i: nat)
    requires depth + 1 < |shape|
  {
    var start := offset + i * stride;
    start < U64_LIMIT && CheckedDim(et, shape, data, depth + 1, start) == Some(FormatDim(et, shape, data, depth + 1, start))
  }

  /** A dimension whose blocks are shown is shown. */
  lemma CheckedBlocksFit(et: ElementType, shape: seq<nat>, data: seq<bv8>, depth: nat, offset: nat, stride: nat)
    requires depth + 1 < |shape| && CheckedProduct(shape[depth + 1..]) == Some(stride) && stride == Product(shape[depth + 1..])
    requires forall i: nat :: i < shape[depth] ==> BlockShown(et, shape, data, depth, offset, stride, i)
    ensures CheckedDim(et, shape, data, depth, offset) == Some(FormatDim(et, shape, data, depth, offset))
  {
    var parts := CheckedBlocks(et, shape, data, depth, offset, stride);
    var texts := FormatDim(et, shape, data, depth, offset).parts;
    forall i | 0 <= i < |parts|
      ensures parts[i] == Some(texts[i])
    {
      assert BlockShown(et, shape, data, depth, offset, stride, i);
    }
    CheckedRowOf(parts, texts);
  }

  lemma {:induction false} CheckedDimFits(et: ElementType, shape: seq<nat>, data: seq<bv8>, depth: nat, offset: nat, total: U64)
    requires depth < |shape| && 0 !in shape && Product(shape) == total && ValuesFit(et, data, total)
    requires offset + Product(shape[depth..]) <= total
    ensures CheckedDim(et, shape, data, depth, offset) == Some(FormatDim(et, shape, data, depth, offset))
    decreases |shape| - depth, 1
  {
    if depth == |shape| - 1 {
      assert shape[depth..] == [shape[depth]] && [shape[depth]][1..] == [];
      CheckedLastFits(et, shape, data, offset, total);
    } else {
      var stride := Product(shape[depth + 1..]);
      SuffixFits(shape, depth + 1);
      forall i: nat | i < shape[depth]
        ensures BlockShown(et, shape, data, depth, offset, stride, i)
      {
        CheckedBlockFits(et, shape, data, depth, offset, stride, total, i);
      }
      CheckedBlocksFit(et, shape, data, depth, offset, stride);
    }
  }

  lemma {:induction false} CheckedBlockFits(et: ElementType, shape: seq<nat>, data: seq<bv8>, depth: nat, offset: nat, stride: nat,
                                            total: U64, i: nat)
    requires depth + 1 < |shape| && 0 !in shape && Product(shape) == total && ValuesFit(et, data, total)
    requires offset + Product(shape[depth..]) <= total && i < shape[depth] && stride == Product(shape[depth + 1..])
    ensures BlockShown(et, shape, data, depth, offset, stride, i)
    decreases |shape| - depth, 0
  {
    BlocksFit(shape, depth, offset, total, i);
    CheckedDimFits(et, shape, data, depth + 1, offset + i * stride, total);
  }

  /** In words: when the element count and the byte size fit, nothing the display computes
      overflows, it is the display above, and no value is missing. */
  lemma DisplayInWords(et: ElementType, shape: seq<U64>, data: seq<bv8>, count: U64)
    requires !et.Extension? && CountOf(shape) == Some(count) && CheckedSize(et, count) == Some(|data|)
    ensures CheckedNumpy(et, shape, data) == Some(FormatNumpy(et, shape, data))
    ensures NothingMissing(Reading(FormatNumpy(et, shape, data)))
  {
    CheckedSizeDecides(et, count);
    DisplayComplete(et, shape, data);
    CheckedNumpyFits(et, shape, data, count);
  }

  lemma CheckedFlatFits(et: ElementType, data: seq<bv8>, total: U64, offset: nat, count: nat)
    requires !et.Extension? && |data| == BufferSize(et, total) < U64_LIMIT && offset + count <= total
    ensures CheckedFlat(et, data, offset, count) == Some(Flat(et, data, offset, count))
  {
    forall k | offset <= k < offset + count
      ensures CheckedScalar(et, data, k) == Some(FormatScalar(et, data, k))
    {
      CheckedScalarFits(et, data, total, k);
    }
    assert CheckedFlat(et, data, offset, count).value == Flat(et, data, offset, count);
  }

  lemma CheckedElidedFits(et: ElementType, shape: seq<U64>, data: seq<bv8>, count: U64)
    requires !et.Extension? && |data| == BufferSize(et, count) < U64_LIMIT && count > NUMPY_THRESHOLD
    requires shape != [] && Product(shape) == count && CheckedProduct(shape) == Some(count)
    ensures CheckedNumpy(et, shape, data) == Some(FormatNumpy(et, shape, data))
  {
    CheckedFlatFits(et, data, count, 0, 3);
    CheckedFlatFits(et, data, count, count - 3, 3);
  }

  lemma CheckedNestedFits(et: ElementType, shape: seq<U64>, data: seq<bv8>, count: U64)
    requires !et.Extension? && |data| == BufferSize(et, count) < U64_LIMIT && 0 < count <= NUMPY_THRESHOLD
    requires shape != [] && Product(shape) == count && CheckedProduct(shape) == Some(count)
    ensures CheckedNumpy(et, shape, data) == Some(FormatNumpy(et, shape, data))
  {
    ProductZero(shape);
    assert shape[0..] == shape;
    forall idx: nat | idx < count
      ensures CheckedValue(et, data, idx) == Some(Value(FormatScalar(et, data, idx)))
    {
      CheckedScalarFits(et, data, count, idx);
    }
    CheckedDimFits(et, shape, data, 0, 0, count);
  }

  lemma CheckedNumpyFits(et: ElementType, shape: seq<U64>, data: seq<bv8>, count: U64)
    requires !et.Extension? && CountOf(shape) == Some(count) && |data| == BufferSize(et, count) < U64_LIMIT
    ensures CheckedNumpy(et, shape, data) == Some(FormatNumpy(et, shape, data))
  {
    if count == 0 {
    } else if shape == [] {
      CheckedScalarFits(et, data, count, 0);
    } else if count > NUMPY_THRESHOLD {
      CheckedElidedFits(et, shape, data, count);
    } else {
      CheckedNestedFits(et, shape, data, count);
    }
  }
}
