/** The inspector's cursor over a descriptor: fields are cut off one row at a time, clamped to
    the descriptor's declared length. */
module Reader {
  import opened Shapes
  import opened Packing

  /** A displayed row: where its bytes are, and the bytes. */
  datatype Row = Row(offset: nat, bytes: seq<bv8>)

  /** The bytes of rows, in order. */
  ghost function Bytes(rows: seq<Row>): seq<bv8> {
    if rows == [] then [] else Bytes(rows[..|rows| - 1]) + rows[|rows| - 1].bytes
  }

  /** Every row starts where the rows before it end. */
  ghost predicate Consecutive(rows: seq<Row>, base: nat) {
    forall i :: 0 <= i < |rows| ==> rows[i].offset == base + |Bytes(rows[..i])|
  }

  /** Rows that tile the first `n` bytes of the data. */
  ghost predicate Tiles(rows: seq<Row>, data: seq<bv8>, base: nat, n: nat) {
    n <= |data| && Bytes(rows) == data[..n] && Consecutive(rows, base)
  }

  lemma TilesMore(rows: seq<Row>, row: Row, data: seq<bv8>, base: nat, n: nat, m: nat)
    requires Tiles(rows, data, base, n) && n <= m <= |data| && row == Row(base + n, data[n..m])
    ensures Tiles(rows + [row], data, base, m)
    ensures |Bytes(rows + [row])| == m
  {
    var all := rows + [row];
    assert all[..|rows|] == rows;
    assert data[..n] + data[n..m] == data[..m];
    forall i | 0 <= i < |all|
      ensures all[i].offset == base + |Bytes(all[..i])|
    {
      if i < |rows| { assert all[..i] == rows[..i]; }
    }
  }

  lemma TilesLength(rows: seq<Row>, data: seq<bv8>, base: nat, n: nat)
    requires Tiles(rows, data, base, n)
    ensures |Bytes(rows)| == n
  {
  }

  // ---- widths ----

  ghost function Sum(widths: seq<nat>): nat {
    if widths == [] then 0 else Sum(widths[..|widths| - 1]) + widths[|widths| - 1]
  }

  function Repeat(width: nat, count: nat): seq<nat> {
    seq(count, _ => width)
  }

  ghost function Lengths(rows: seq<Row>): (ls: seq<nat>)
    ensures |ls| == |rows|
  {
    seq(|rows|, i requires 0 <= i < |rows| => |rows[i].bytes|)
  }

  /** Where the cursor stands after fields of these widths, stopping at the end of the window. */
  ghost function Reach(widths: seq<nat>, pos: nat, end: nat): nat {
    Min(pos + Sum(widths), end)
  }

  /** How many bytes of each field are inside the window. */
  ghost function Clamped(widths: seq<nat>, pos: nat, end: nat): (ls: seq<nat>)
    requires pos <= end
    ensures |ls| == |widths|
  {
    if widths == [] then [] else
    var n := |widths| - 1;
    Clamped(widths[..n], pos, end) + [Min(widths[n], end - Reach(widths[..n], pos, end))]
  }

  lemma {:induction false} SumConcat(a: seq<nat>, b: seq<nat>)
    ensures Sum(a + b) == Sum(a) + Sum(b)
  {
    if b == [] {
      assert a + b == a;
    } else {
      var n := |b| - 1;
      SumConcat(a, b[..n]);
      assert (a + b)[..|a| + n] == a + b[..n];
    }
  }

  lemma ReachConcat(a: seq<nat>, b: seq<nat>, pos: nat, end: nat)
    ensures Reach(a + b, pos, end) == Reach(b, Reach(a, pos, end), end)
  {
    SumConcat(a, b);
  }

  lemma {:induction false} ClampedConcat(a: seq<nat>, b: seq<nat>, pos: nat, end: nat)
    requires pos <= end
    ensures Clamped(a + b, pos, end) == Clamped(a, pos, end) + Clamped(b, Reach(a, pos, end), end)
  {
    if b == [] {
      assert a + b == a;
    } else {
      var n := |b| - 1;
      ClampedConcat(a, b[..n], pos, end);
      ReachConcat(a, b[..n], pos, end);
      assert (a + b)[..|a| + n] == a + b[..n];
    }
  }

  /** Fields that fit in the window are not cut. */
  lemma {:induction false} ClampedFits(widths: seq<nat>, pos: nat, end: nat)
    requires pos + Sum(widths) <= end
    ensures Clamped(widths, pos, end) == widths
  {
    if widths != [] {
      var n := |widths| - 1;
      ClampedFits(widths[..n], pos, end);
      assert widths == widths[..n] + [widths[n]];
    }
  }

  /** Fields of these widths took the rows and the cursor from one state to another. */
  ghost predicate Took(widths: seq<nat>, rows0: seq<Row>, pos0: nat, rows: seq<Row>, pos: nat, end: nat) {
    && pos0 <= end && pos == Reach(widths, pos0, end)
    && Lengths(rows) == Lengths(rows0) + Clamped(widths, pos0, end)
  }

  lemma TookNone(rows: seq<Row>, pos: nat, end: nat)
    requires pos <= end
    ensures Took([], rows, pos, rows, pos, end)
  {
    assert Lengths(rows) + [] == Lengths(rows);
  }

  lemma TookOne(n: nat, rows0: seq<Row>, pos0: nat, row: Row, pos: nat, end: nat)
    requires pos0 <= end && pos == Min(pos0 + n, end) && |row.bytes| == pos - pos0
    ensures Took([n], rows0, pos0, rows0 + [row], pos, end)
  {
    assert [n][..0] == [];
    assert Clamped([n], pos0, end) == [pos - pos0];
  }

  lemma TookBoth(a: seq<nat>, b: seq<nat>, rows0: seq<Row>, pos0: nat, rows1: seq<Row>, pos1: nat, rows: seq<Row>, pos: nat, end: nat)
    requires Took(a, rows0, pos0, rows1, pos1, end) && Took(b, rows1, pos1, rows, pos, end)
    ensures Took(a + b, rows0, pos0, rows, pos, end)
  {
    ReachConcat(a, b, pos0, end);
    ClampedConcat(a, b, pos0, end);
  }

  class FieldReader {
    const data: seq<bv8>
    const limit: nat
    const baseOffset: nat
    var pos: nat

    ghost predicate Valid()
      reads this
    {
      pos <= End()
    }

    /** The end of the window. */
    ghost function End(): nat
      reads this
    {
      Min(limit, |data|)
    }

    constructor (data: seq<bv8>, limit: nat, baseOffset: nat)
      ensures Valid() && pos == 0
      ensures this.data == data && this.limit == limit && this.baseOffset == baseOffset
    {
      this.data := data;
      this.limit := limit;
      this.baseOffset := baseOffset;
      pos := 0;
    }

    /** Consumes up to `n` bytes; the slice is always in range. */
    method TakeRow(n: nat) returns (row: Row)
      requires Valid()
      modifies this
      ensures Valid() && old(pos) <= pos
      ensures pos == Min(old(pos) + n, End())
      ensures row == Row(baseOffset + old(pos), data[old(pos)..pos])
    {
      var offset := pos;
      var end := Min(Min(pos + n, limit), |data|);
      row := Row(baseOffset + offset, data[offset..end]);
      pos := end;
    }

    /** Advances to a position inside the window, with a row for the bytes passed over. */
    method SkipTo(target: nat) returns (row: Option<Row>)
      requires Valid()
      modifies this
      ensures Valid()
      ensures row.Some? <==> old(pos) < target <= End()
      ensures row.Some? ==> pos == target && row.value == Row(baseOffset + old(pos), data[old(pos)..target])
      ensures row.None? ==> pos == old(pos)
    {
      if target <= pos || target > limit || target > |data| {
        return None;
      }
      row := Some(Row(baseOffset + pos, data[pos..target]));
      pos := target;
    }

    /** A run of fields of the given widths: their rows go on tiling the data, each cut at the
        end of the window. */
    method TakeRows(widths: seq<nat>, rows0: seq<Row>) returns (rows: seq<Row>)
      requires Valid() && Tiles(rows0, data, baseOffset, pos)
      modifies this
      ensures Valid() && Tiles(rows, data, baseOffset, pos)
      ensures Took(widths, rows0, old(pos), rows, pos, End())
    {
      rows := rows0;
      TookNone(rows0, pos, End());
      for i := 0 to |widths|
        invariant Valid() && Tiles(rows, data, baseOffset, pos)
        invariant Took(widths[..i], rows0, old(pos), rows, pos, End())
      {
        ghost var before, rows1 := pos, rows;
        rows := AppendRow(widths[i], rows);
        assert widths[..i + 1] == widths[..i] + [widths[i]];
        TookBoth(widths[..i], [widths[i]], rows0, old(pos), rows1, before, rows, pos, End());
      }
      assert widths[..|widths|] == widths;
    }

    method AppendRow(n: nat, rows0: seq<Row>) returns (rows: seq<Row>)
      requires Valid() && Tiles(rows0, data, baseOffset, pos)
      modifies this
      ensures Valid() && Tiles(rows, data, baseOffset, pos)
      ensures Took([n], rows0, old(pos), rows, pos, End())
    {
      ghost var before := pos;
      var row := TakeRow(n);
      TilesMore(rows0, row, data, baseOffset, before, pos);
      TookOne(n, rows0, before, row, pos, End());
      rows := rows0 + [row];
    }
  }

  // ---- the fields of a descriptor ----

  /** A tiled layout's fields, nested to any depth. */
  datatype Tiled = Tiled(rank: nat, outerStrides: Option<nat>, innerStrides: Option<nat>, inner: Option<Tiled>)

  function StrideWidths(strides: Option<nat>): seq<nat> {
    if strides.Some? then Repeat(8, strides.value) else []
  }

  /** Tile shape, two layout tags, two reserved bytes, outer strides; then inner strides or else
      a nested tiled layout. */
  function TiledWidths(tiled: Tiled): seq<nat> {
    Repeat(8, tiled.rank) + [1, 1, 2] + StrideWidths(tiled.outerStrides)
    + if tiled.innerStrides.Some? then StrideWidths(tiled.innerStrides)
      else if tiled.inner.Some? then TiledWidths(tiled.inner.value) else []
  }

  method TiledRows(r: FieldReader, tiled: Tiled, rows0: seq<Row>) returns (rows: seq<Row>)
    requires r.Valid() && Tiles(rows0, r.data, r.baseOffset, r.pos)
    modifies r
    ensures r.Valid() && Tiles(rows, r.data, r.baseOffset, r.pos)
    ensures Took(TiledWidths(tiled), rows0, old(r.pos), rows, r.pos, r.End())
    decreases tiled
  {
    var fixed := Repeat(8, tiled.rank) + [1, 1, 2] + StrideWidths(tiled.outerStrides);
    ghost var start := r.pos;
    rows := r.TakeRows(fixed, rows0);
    ghost var rows1, middle := rows, r.pos;
    if tiled.innerStrides.Some? {
      rows := r.TakeRows(StrideWidths(tiled.innerStrides), rows);
      TookBoth(fixed, StrideWidths(tiled.innerStrides), rows0, start, rows1, middle, rows, r.pos, r.End());
    } else if tiled.inner.Some? {
      rows := TiledRows(r, tiled.inner.value, rows);
      TookBoth(fixed, TiledWidths(tiled.inner.value), rows0, start, rows1, middle, rows, r.pos, r.End());
    } else {
      assert fixed + [] == fixed;
    }
  }

  /** What decides which fields a layout adds. */
  datatype LayoutFields =
    | RowMajor | ColMajor
    | Strided(strides: nat)
    | Nested(tiled: Tiled)
    | Morton(bits: nat)
    | Coo | Csr | Csc
    | Csf(modes: nat)
    | BlockPaged
    | Composite
    | Hilbert
    | PrivateExtension(length: nat)
    | Unknown(length: nat)

  datatype QuantizationScheme = PerTensorAffine | PerChannelAffine | PerBlockAffine | Nf4 | Mxfp

  /** A quantization section: its scheme, or its length if it cannot be decoded. */
  datatype Quantization = Decoded(scheme: QuantizationScheme) | Undecodable(length: nat)

  /** What decides which fields a descriptor has. */
  datatype Sections = Sections(
    rank: nat,
    layout: LayoutFields,
    buffers: nat,
    quantization: Option<Quantization>,
    shard: Option<(nat, nat)>,
    statistics: bool,
    extension: bool,
    member: bool)

  function HeaderWidths(rank: nat): seq<nat> {
    [4, 1, 1, 4, 4, 1, 1, 4] + Repeat(8, rank) + [8]
  }

  function LayoutWidths(layout: LayoutFields): seq<nat> {
    match layout
    case Nested(tiled) => TiledWidths(tiled)
    case _ => FlatWidths(layout)
  }

  /** A field for bytes shown as one row, if there are any. */
  function Blob(length: nat): seq<nat> {
    if length == 0 then [] else [length]
  }

  /** The fields of every layout but the tiled one. */
  function FlatWidths(layout: LayoutFields): seq<nat> {
    match layout
    case RowMajor | ColMajor | Nested(_) => []
    case Strided(n) => Repeat(8, n)
    case Morton(n) => Repeat(4, n)
    case Coo => [8, 1, 7]
    case Csr | Csc => [8, 8]
    case Csf(n) => [8] + Repeat(4, n) + [8]
    case BlockPaged => [4, 8, 4, 4, 1, 4, 1, 6]
    case Composite => [1, 1, 2, 4]
    case Hilbert => [4, 4]
    case PrivateExtension(length) => [8, 4] + Blob(length)
    case Unknown(length) => Blob(length)
  }

  /** The length of the section, then its header and fields, or its bytes as they are. */
  function QuantizationWidths(q: Quantization): seq<nat> {
    [4] +
    match q
    case Undecodable(length) => Blob(length)
    case Decoded(PerTensorAffine) => [1, 1, 2, 4, 4, 4]
    case Decoded(PerChannelAffine) => [1, 1, 2, 4, 4, 4, 1, 3]
    case Decoded(PerBlockAffine) => [1, 1, 2, 4, 4, 4, 4, 1, 3]
    case Decoded(Nf4) | Decoded(Mxfp) => [1, 1, 2, 4, 4, 4]
  }

  function BufferWidths(buffers: nat): seq<nat> {
    if buffers == 0 then [] else BufferWidths(buffers - 1) + [8, 4, 1, 1, 2]
  }

  /** The buffer table and the optional sections, in their order. */
  function TrailerWidths(d: Sections): seq<nat> {
    [1] + BufferWidths(d.buffers)
    + (if d.quantization.Some? then QuantizationWidths(d.quantization.value) else [])
    + (if d.shard.Some? then Repeat(8, d.shard.value.0) + Repeat(8, d.shard.value.1) else [])
    + (if d.statistics then [4, 4, 8, 8, 8, 8, 8, 8, 8, 1, 1, 1, 1, 4] else [])
    + (if d.extension then [4, 1, 1, 1, 1, 1, 1, 2, 4, 1, 1, 2] else [])
    + (if d.member then [1, 15] else [])
  }

  ghost function AllWidths(d: Sections): seq<nat> {
    HeaderWidths(d.rank) + LayoutWidths(d.layout) + TrailerWidths(d)
  }

  // ---- sizes and positions, as the format states them ----

  lemma SumFour(a: nat, b: nat, c: nat, d: nat)
    ensures Sum([a]) == a && Sum([a, b]) == a + b && Sum([a, b, c]) == a + b + c && Sum([a, b, c, d]) == a + b + c + d
  {
    assert [a][..0] == [] && [a, b][..1] == [a] && [a, b, c][..2] == [a, b] && [a, b, c, d][..3] == [a, b, c];
  }

  lemma {:induction false} SumRepeat(width: nat, count: nat)
    ensures Sum(Repeat(width, count)) == width * count
  {
    if count > 0 {
      SumRepeat(width, count - 1);
      assert Repeat(width, count)[..count - 1] == Repeat(width, count - 1);
      assert width * (count - 1) + width == width * count;
    }
  }

  /** Sixty-four bits for every number of a tile shape or of strides, four bytes between them. */
  ghost function TiledBytes(tiled: Tiled): nat {
    8 * tiled.rank + 4 + (if tiled.outerStrides.Some? then 8 * tiled.outerStrides.value else 0)
    + if tiled.innerStrides.Some? then 8 * tiled.innerStrides.value
      else if tiled.inner.Some? then TiledBytes(tiled.inner.value) else 0
  }

  /** The size of a layout's own fields. */
  ghost function LayoutBytes(layout: LayoutFields): nat {
    match layout
    case RowMajor | ColMajor => 0
    case Strided(n) => 8 * n
    case Nested(tiled) => TiledBytes(tiled)
    case Morton(n) => 4 * n
    case Coo | Csr | Csc => 16
    case Csf(n) => 16 + 4 * n
    case BlockPaged => 32
    case Composite | Hilbert => 8
    case PrivateExtension(length) => 12 + length
    case Unknown(length) => length
  }

  ghost function QuantizationBytes(q: Quantization): nat {
    match q
    case Undecodable(length) => 4 + length
    case Decoded(PerChannelAffine) => 24
    case Decoded(PerBlockAffine) => 28
    case Decoded(_) => 20
  }

  /** The size of everything from the number of buffers on. */
  ghost function TrailerBytes(d: Sections): nat {
    1 + 16 * d.buffers
    + (if d.quantization.Some? then QuantizationBytes(d.quantization.value) else 0)
    + (if d.shard.Some? then 8 * d.shard.value.0 + 8 * d.shard.value.1 else 0)
    + (if d.statistics then 72 else 0) + (if d.extension then 20 else 0) + (if d.member then 16 else 0)
  }

  lemma {:induction false} TiledSize(tiled: Tiled)
    ensures Sum(TiledWidths(tiled)) == TiledBytes(tiled)
    decreases tiled
  {
    var head, outer := Repeat(8, tiled.rank) + [1, 1, 2], StrideWidths(tiled.outerStrides);
    SumRepeat(8, tiled.rank);
    SumFour(1, 1, 2, 0);
    SumConcat(Repeat(8, tiled.rank), [1, 1, 2]);
    StridesSize(tiled.outerStrides);
    SumConcat(head, outer);
    if tiled.innerStrides.Some? {
      StridesSize(tiled.innerStrides);
      SumConcat(head + outer, StrideWidths(tiled.innerStrides));
    } else if tiled.inner.Some? {
      TiledSize(tiled.inner.value);
      SumConcat(head + outer, TiledWidths(tiled.inner.value));
    } else {
      SumConcat(head + outer, []);
    }
  }

  lemma StridesSize(strides: Option<nat>)
    ensures Sum(StrideWidths(strides)) == if strides.Some? then 8 * strides.value else 0
  {
    if strides.Some? { SumRepeat(8, strides.value); }
  }

  lemma BlobSize(length: nat)
    ensures Sum(Blob(length)) == length
  {
    SumFour(length, 0, 0, 0);
  }

  lemma LayoutSize(layout: LayoutFields)
    ensures Sum(LayoutWidths(layout)) == LayoutBytes(layout)
  {
    match layout
    case RowMajor | ColMajor =>
    case Nested(tiled) => TiledSize(tiled);
    case Strided(n) => SumRepeat(8, n);
    case Morton(n) => SumRepeat(4, n);
    case Coo => SumFour(8, 1, 7, 0);
    case Csr | Csc => SumFour(8, 8, 0, 0);
    case Csf(n) => CsfSize(n);
    case BlockPaged =>
      SumFour(4, 8, 4, 4);
      SumFour(1, 4, 1, 6);
      SumConcat([4, 8, 4, 4], [1, 4, 1, 6]);
      assert [4, 8, 4, 4] + [1, 4, 1, 6] == [4, 8, 4, 4, 1, 4, 1, 6];
    case Composite => SumFour(1, 1, 2, 4);
    case Hilbert => SumFour(4, 4, 0, 0);
    case PrivateExtension(length) =>
      SumFour(8, 4, 0, 0);
      BlobSize(length);
      SumConcat([8, 4], Blob(length));
    case Unknown(length) => BlobSize(length);
  }

  lemma CsfSize(n: nat)
    ensures Sum([8] + Repeat(4, n) + [8]) == 16 + 4 * n
  {
    SumFour(8, 0, 0, 0);
    SumRepeat(4, n);
    SumConcat([8], Repeat(4, n));
    SumConcat([8] + Repeat(4, n), [8]);
  }

  lemma QuantizationSize(q: Quantization)
    ensures Sum(QuantizationWidths(q)) == QuantizationBytes(q)
  {
    SumFour(4, 0, 0, 0);
    SumFour(1, 1, 2, 4);
    match q
    case Undecodable(length) =>
      BlobSize(length);
      SumConcat([4], Blob(length));
    case Decoded(scheme) =>
      var rest := match scheme case PerChannelAffine => [4, 4, 1, 3] case PerBlockAffine => [4, 4, 4, 1, 3] case _ => [4, 4];
      SumFour(4, 4, 1, 3);
      assert [4] + [4, 4, 1, 3] == [4, 4, 4, 1, 3];
      SumConcat([4], [4, 4, 1, 3]);
      SumConcat([1, 1, 2, 4], rest);
      SumConcat([4], [1, 1, 2, 4] + rest);
      assert QuantizationWidths(q) == [4] + ([1, 1, 2, 4] + rest);
  }

  /** Sixteen bytes for each entry of the buffer table. */
  lemma {:induction false} BufferSizes(buffers: nat)
    ensures Sum(BufferWidths(buffers)) == 16 * buffers
  {
    if buffers > 0 {
      BufferSizes(buffers - 1);
      SumFour(8, 4, 1, 1);
      SumFour(2, 0, 0, 0);
      SumConcat([8, 4, 1, 1], [2]);
      assert [8, 4, 1, 1] + [2] == [8, 4, 1, 1, 2];
      SumConcat(BufferWidths(buffers - 1), [8, 4, 1, 1, 2]);
    }
  }

  lemma StatisticsSize()
    ensures Sum([4, 4, 8, 8, 8, 8, 8, 8, 8, 1, 1, 1, 1, 4]) == 72
  {
    SumFour(4, 4, 8, 8);
    SumFour(8, 8, 8, 8);
    SumFour(8, 1, 1, 1);
    SumFour(1, 4, 0, 0);
    SumConcat([4, 4, 8, 8], [8, 8, 8, 8]);
    SumConcat([4, 4, 8, 8] + [8, 8, 8, 8], [8, 1, 1, 1]);
    SumConcat([4, 4, 8, 8] + [8, 8, 8, 8] + [8, 1, 1, 1], [1, 4]);
    assert [4, 4, 8, 8] + [8, 8, 8, 8] + [8, 1, 1, 1] + [1, 4] == [4, 4, 8, 8, 8, 8, 8, 8, 8, 1, 1, 1, 1, 4];
  }

  lemma ExtensionSize()
    ensures Sum([4, 1, 1, 1, 1, 1, 1, 2, 4, 1, 1, 2]) == 20
  {
    SumFour(4, 1, 1, 1);
    SumFour(1, 1, 1, 2);
    SumFour(4, 1, 1, 2);
    SumConcat([4, 1, 1, 1], [1, 1, 1, 2]);
    SumConcat([4, 1, 1, 1] + [1, 1, 1, 2], [4, 1, 1, 2]);
    assert [4, 1, 1, 1] + [1, 1, 1, 2] + [4, 1, 1, 2] == [4, 1, 1, 1, 1, 1, 1, 2, 4, 1, 1, 2];
  }

  lemma HeaderSize(rank: nat)
    ensures Sum(HeaderWidths(rank)) == 28 + 8 * rank
  {
    SumFour(4, 1, 1, 4);
    SumFour(4, 1, 1, 4);
    SumFour(8, 0, 0, 0);
    SumRepeat(8, rank);
    SumConcat([4, 1, 1, 4], [4, 1, 1, 4]);
    assert [4, 1, 1, 4] + [4, 1, 1, 4] == [4, 1, 1, 4, 4, 1, 1, 4];
    SumConcat([4, 1, 1, 4, 4, 1, 1, 4], Repeat(8, rank));
    SumConcat([4, 1, 1, 4, 4, 1, 1, 4] + Repeat(8, rank), [8]);
  }

  lemma TrailerSize(d: Sections)
    ensures Sum(TrailerWidths(d)) == TrailerBytes(d)
  {
    hide Sum;
    var table := [1] + BufferWidths(d.buffers);
    var quantization := if d.quantization.Some? then QuantizationWidths(d.quantization.value) else [];
    var shard := if d.shard.Some? then Repeat(8, d.shard.value.0) + Repeat(8, d.shard.value.1) else [];
    var statistics := if d.statistics then [4, 4, 8, 8, 8, 8, 8, 8, 8, 1, 1, 1, 1, 4] else [];
    var extension := if d.extension then [4, 1, 1, 1, 1, 1, 1, 2, 4, 1, 1, 2] else [];
    var member := if d.member then [1, 15] else [];
    SumFour(1, 15, 0, 0);
    SumNone();
    BufferSizes(d.buffers);
    SumConcat([1], BufferWidths(d.buffers));
    if d.quantization.Some? { QuantizationSize(d.quantization.value); }
    if d.shard.Some? {
      SumRepeat(8, d.shard.value.0);
      SumRepeat(8, d.shard.value.1);
      SumConcat(Repeat(8, d.shard.value.0), Repeat(8, d.shard.value.1));
    }
    StatisticsSize();
    ExtensionSize();
    SumConcat(table, quantization);
    SumConcat(table + quantization, shard);
    SumConcat(table + quantization + shard, statistics);
    SumConcat(table + quantization + shard + statistics, extension);
    SumConcat(table + quantization + shard + statistics + extension, member);
  }

  lemma SumNone()
    ensures Sum([]) == 0
  {
  }

  /** The size of a whole descriptor, from the sections it has. */
  lemma DescriptorSize(d: Sections)
    ensures Sum(AllWidths(d)) == 28 + 8 * d.rank + LayoutBytes(d.layout) + TrailerBytes(d)
  {
    HeaderSize(d.rank);
    LayoutSize(d.layout);
    TrailerSize(d);
    SumConcat(HeaderWidths(d.rank), LayoutWidths(d.layout));
    SumConcat(HeaderWidths(d.rank) + LayoutWidths(d.layout), TrailerWidths(d));
  }

  method LayoutRows(r: FieldReader, layout: LayoutFields, rows0: seq<Row>) returns (rows: seq<Row>)
    requires r.Valid() && Tiles(rows0, r.data, r.baseOffset, r.pos)
    modifies r
    ensures r.Valid() && Tiles(rows, r.data, r.baseOffset, r.pos)
    ensures Took(LayoutWidths(layout), rows0, old(r.pos), rows, r.pos, r.End())
  {
    match layout {
      case Nested(tiled) => rows := TiledRows(r, tiled, rows0);
      case _ => rows := r.TakeRows(FlatWidths(layout), rows0);
    }
  }

  method FieldRows(r: FieldReader, d: Sections) returns (rows: seq<Row>)
    requires r.Valid() && r.pos == 0
    modifies r
    ensures r.Valid() && Tiles(rows, r.data, r.baseOffset, r.pos)
    ensures Took(AllWidths(d), [], 0, rows, r.pos, r.End())
  {
    rows := r.TakeRows(HeaderWidths(d.rank), []);
    ghost var rows1, pos1 := rows, r.pos;
    rows := LayoutRows(r, d.layout, rows);
    ghost var rows2, pos2 := rows, r.pos;
    TookBoth(HeaderWidths(d.rank), LayoutWidths(d.layout), [], 0, rows1, pos1, rows2, pos2, r.End());
    rows := r.TakeRows(TrailerWidths(d), rows);
    TookBoth(HeaderWidths(d.rank) + LayoutWidths(d.layout), TrailerWidths(d), [], 0, rows2, pos2, rows, r.pos, r.End());
  }

  /** The length field of a descriptor: four bytes, least significant first. */
  function DescriptorLength(data: seq<bv8>): nat
    requires |data| >= 10
  {
    data[6] as nat + 0x100 * (data[7] as nat + 0x100 * (data[8] as nat + 0x100 * data[9] as nat))
  }

  /** The lengths of the rows when every field fits: the field widths, and one more row for
      whatever the fields leave over. */
  ghost function ExpectedLengths(widths: seq<nat>, length: nat): seq<nat> {
    widths + if Sum(widths) < length then [length - Sum(widths)] else []
  }

  lemma {:induction false} BytesOfRows(rows: seq<Row>)
    ensures |Bytes(rows)| == Sum(Lengths(rows))
  {
    if rows != [] {
      var n := |rows| - 1;
      BytesOfRows(rows[..n]);
      assert Lengths(rows)[..n] == Lengths(rows[..n]);
    }
  }

  /** All rows but the last tile what is before it, and the last one shows the rest. */
  lemma TilesSplit(rows: seq<Row>, data: seq<bv8>, base: nat, n: nat)
    requires Tiles(rows, data, base, n) && rows != []
    ensures var m := |Bytes(rows[..|rows| - 1])|;
            && m + |rows[|rows| - 1].bytes| == n && Tiles(rows[..|rows| - 1], data, base, m)
            && rows[|rows| - 1] == Row(base + m, data[m..n])
  {
    var last, rest := |rows| - 1, rows[..|rows| - 1];
    var m := |Bytes(rest)|;
    assert Bytes(rows) == Bytes(rest) + rows[last].bytes;
    assert Bytes(rows)[..m] == Bytes(rest) && Bytes(rows)[m..] == rows[last].bytes;
    assert data[..n][..m] == data[..m] && data[..n][m..] == data[m..n];
    forall i | 0 <= i < |rest|
      ensures rest[i].offset == base + |Bytes(rest[..i])|
    {
      assert rest[..i] == rows[..i];
    }
  }

  /** A row of rows that tile the data shows the bytes at its place. */
  lemma {:induction false} RowShows(rows: seq<Row>, data: seq<bv8>, base: nat, n: nat, i: nat)
    requires Tiles(rows, data, base, n) && i < |rows|
    ensures var start := Sum(Lengths(rows)[..i]);
            && start + |rows[i].bytes| <= n
            && rows[i] == Row(base + start, data[start..start + |rows[i].bytes|])
    decreases |rows|
  {
    hide Bytes, Sum, Tiles;
    var last := |rows| - 1;
    TilesSplit(rows, data, base, n);
    BytesOfRows(rows[..i]);
    assert Lengths(rows)[..i] == Lengths(rows[..i]);
    if i < last {
      RowShows(rows[..last], data, base, |Bytes(rows[..last])|, i);
      assert Lengths(rows[..last])[..i] == Lengths(rows)[..i];
    }
  }

  /** Each field has its own row, which starts where the fields before it end and shows all of it. */
  ghost predicate FieldsShown(rows: seq<Row>, widths: seq<nat>, data: seq<bv8>, base: nat) {
    && |widths| <= |rows| && Sum(widths) <= |data|
    && forall i :: 0 <= i < |widths| ==>
         Sum(widths[..i]) + widths[i] <= |data| && rows[i] == FieldRow(data, base, Sum(widths[..i]), widths[i])
  }

  ghost function FieldRow(data: seq<bv8>, base: nat, start: nat, width: nat): Row
    requires start + width <= |data|
  {
    Row(base + start, data[start..start + width])
  }

  lemma ExpectedShows(rows: seq<Row>, widths: seq<nat>, length: nat, data: seq<bv8>, base: nat)
    requires Tiles(rows, data, base, |Bytes(rows)|) && Sum(widths) <= |data|
    requires Lengths(rows) == ExpectedLengths(widths, length)
    ensures FieldsShown(rows, widths, data, base)
  {
    forall i | 0 <= i < |widths|
      ensures Sum(widths[..i]) + widths[i] <= |data| && rows[i] == FieldRow(data, base, Sum(widths[..i]), widths[i])
    {
      RowShows(rows, data, base, |Bytes(rows)|, i);
      assert Lengths(rows)[..i] == widths[..i];
      assert Lengths(rows)[i] == widths[i];
    }
  }

  lemma HeaderStarts(rank: nat)
    ensures |HeaderWidths(rank)| == 9 + rank
    ensures HeaderWidths(rank)[..3] == [4, 1, 1] && HeaderWidths(rank)[3] == 4
  {
  }

  /** The length field is the fourth field of every descriptor, and the buffer table comes right
      after the layout's fields. */
  lemma FieldStarts(d: Sections)
    ensures |AllWidths(d)| > 9 + d.rank + |LayoutWidths(d.layout)|
    ensures Sum(AllWidths(d)[..3]) == 6 && AllWidths(d)[3] == 4
    ensures var table := 9 + d.rank + |LayoutWidths(d.layout)|;
            Sum(AllWidths(d)[..table]) == 28 + 8 * d.rank + LayoutBytes(d.layout) && AllWidths(d)[table] == 1
  {
    hide Sum, HeaderWidths, LayoutWidths, LayoutBytes, TrailerWidths;
    var front := HeaderWidths(d.rank) + LayoutWidths(d.layout);
    HeaderStarts(d.rank);
    HeaderSize(d.rank);
    LayoutSize(d.layout);
    SumConcat(HeaderWidths(d.rank), LayoutWidths(d.layout));
    assert AllWidths(d)[..|front|] == front;
    SumFour(4, 1, 1, 0);
    assert AllWidths(d)[..3] == [4, 1, 1];
    TrailerStart(d);
  }

  lemma TrailerStart(d: Sections)
    ensures TrailerWidths(d) != [] && TrailerWidths(d)[0] == 1
  {
  }

  /** Four bytes, least significant first, are the number of their digits. */
  lemma LengthIsNumber(data: seq<bv8>)
    requires |data| >= 10
    ensures LittleEndian(data[6..10]) == DescriptorLength(data)
  {
    var b := data[6..10];
    assert b[1..][0] == data[7] && b[1..][1..] == data[8..10] && data[8..10][1..] == [data[9]] && [data[9]][1..] == [];
    assert LittleEndian(data[8..10]) == data[8] as nat + 256 * LittleEndian([data[9]]);
  }

  lemma WhereRowsAre(rows: seq<Row>, d: Sections, data: seq<bv8>, base: nat)
    requires |data| >= 10 && FieldsShown(rows, AllWidths(d), data, base)
    ensures |rows| > 9 + d.rank + |LayoutWidths(d.layout)|
    ensures rows[3] == Row(base + 6, data[6..10]) && LittleEndian(rows[3].bytes) == DescriptorLength(data)
    ensures var row := rows[9 + d.rank + |LayoutWidths(d.layout)|];
            row.offset == base + 28 + 8 * d.rank + LayoutBytes(d.layout) && |row.bytes| == 1
  {
    hide AllWidths, LayoutWidths, LayoutBytes, LittleEndian, Sum;
    var widths, table := AllWidths(d), 9 + d.rank + |LayoutWidths(d.layout)|;
    FieldStarts(d);
    LengthIsNumber(data);
    assert rows[3] == FieldRow(data, base, Sum(widths[..3]), widths[3]);
    assert rows[table] == FieldRow(data, base, Sum(widths[..table]), widths[table]);
  }

  /** The rows of a whole descriptor. They tile a prefix of the data without gap or repetition,
      all of the descriptor exactly when the data is as long as it says. When the fields fit in it
      too, every field has its own row, one more row at most shows what they leave over, the fourth
      row shows the length of all of them, and the buffer table starts where rank and layout say. */
  method DescriptorRows(data: seq<bv8>, d: Sections, base: nat) returns (rows: seq<Row>)
    requires |data| >= 10
    ensures Tiles(rows, data, base, |Bytes(rows)|)
    ensures |Bytes(rows)| == DescriptorLength(data) <==> DescriptorLength(data) <= |data|
    ensures Sum(AllWidths(d)) <= DescriptorLength(data) <= |data| ==>
              && Lengths(rows) == ExpectedLengths(AllWidths(d), DescriptorLength(data))
              && FieldsShown(rows, AllWidths(d), data, base)
    ensures Sum(AllWidths(d)) <= DescriptorLength(data) <= |data| ==>
              && |rows| > 3 && rows[3].offset == base + 6 && |rows[3].bytes| == 4
              && LittleEndian(rows[3].bytes) == |Bytes(rows)|
    ensures Sum(AllWidths(d)) <= DescriptorLength(data) <= |data| ==>
              var table := 9 + d.rank + |LayoutWidths(d.layout)|;
              && |rows| > table && rows[table].offset == base + 28 + 8 * d.rank + LayoutBytes(d.layout)
              && |rows[table].bytes| == 1
  {
    hide AllWidths, LayoutWidths, LayoutBytes, LittleEndian, Sum, DescriptorLength;
    var r := new FieldReader(data, DescriptorLength(data), base);
    rows := FieldRows(r, d);
    rows := RestRow(r, rows, AllWidths(d));
    if Sum(AllWidths(d)) <= DescriptorLength(data) <= |data| {
      ExpectedShows(rows, AllWidths(d), DescriptorLength(data), data, base);
      WhereRowsAre(rows, d, data, base);
    }
  }

  /** One more row for what fields of these widths leave over of the window. */
  method RestRow(r: FieldReader, rows0: seq<Row>, ghost widths: seq<nat>) returns (rows: seq<Row>)
    requires r.Valid() && Tiles(rows0, r.data, r.baseOffset, r.pos)
    requires Took(widths, [], 0, rows0, r.pos, r.End())
    modifies r
    ensures Tiles(rows, r.data, r.baseOffset, |Bytes(rows)|)
    ensures |Bytes(rows)| == r.limit <==> r.limit <= |r.data|
    ensures Sum(widths) <= r.limit <= |r.data| ==> Lengths(rows) == ExpectedLengths(widths, r.limit)
  {
    ghost var pos := r.pos;
    TilesLength(rows0, r.data, r.baseOffset, pos);
    var last := r.SkipTo(r.limit);
    if last.Some? {
      TilesMore(rows0, last.value, r.data, r.baseOffset, pos, r.limit);
      rows := rows0 + [last.value];
    } else {
      assert rows0 + [] == rows0;
      rows := rows0;
    }
    if Sum(widths) <= r.limit <= |r.data| {
      ShownWhole(widths, rows0, pos, r.limit, last);
    }
  }

  lemma TookWhole(widths: seq<nat>, rows: seq<Row>, pos: nat, end: nat)
    requires Took(widths, [], 0, rows, pos, end) && Sum(widths) <= end
    ensures Lengths(rows) == widths && pos == Sum(widths)
  {
    ClampedFits(widths, 0, end);
    assert Lengths([]) + widths == widths;
  }

  lemma LengthsSnoc(rows: seq<Row>, row: Row)
    ensures Lengths(rows + [row]) == Lengths(rows) + [|row.bytes|]
  {
  }

  lemma ShownWhole(widths: seq<nat>, rows: seq<Row>, pos: nat, descLen: nat, last: Option<Row>)
    requires Took(widths, [], 0, rows, pos, descLen) && Sum(widths) <= descLen
    requires last.Some? <==> pos < descLen
    requires last.Some? ==> |last.value.bytes| == descLen - pos
    ensures Lengths(rows + if last.Some? then [last.value] else []) == ExpectedLengths(widths, descLen)
  {
    TookWhole(widths, rows, pos, descLen);
    if last.Some? {
      LengthsSnoc(rows, last.value);
    } else {
      assert rows + [] == rows && widths + [] == widths;
    }
  }
}
