/** Where an encoded descriptor has each of its values: the offsets that the format states. */
module Offsets {
  import opened Shapes
  import opened Packing
  import opened Encoding
  import D = Descriptors

  // ---- the header, as the format states it ----

  /** Each flag tells whether its section is present. */
  lemma FlagBits(d: Descriptor)
    ensures Digit(d.Flags(), 2, 0) == 1 <==> d.quantization.Some?
    ensures Digit(d.Flags(), 2, 1) == 1 <==> d.shard.Some?
    ensures Digit(d.Flags(), 2, 2) == 1 <==> d.extension.Some?
    ensures Digit(d.Flags(), 2, 3) == 1 <==> d.statistics.Some?
    ensures Digit(d.Flags(), 2, 4) == 1 <==> d.role.Some?
  {
    SmallPowers();
  }

  lemma ConcatFour(a: Bytes, b: Bytes, c: Bytes, e: Bytes, rest: seq<Bytes>)
    ensures Concat([a, b, c, e] + rest) == a + b + c + e + Concat(rest)
  {
    hide Concat;
    NoFields();
    ConcatOne([], a);
    ConcatOne([a], b);
    ConcatOne([a, b], c);
    ConcatOne([a, b, c], e);
    assert [] + [a] == [a] && [a] + [b] == [a, b] && [a, b] + [c] == [a, b, c] && [a, b, c] + [e] == [a, b, c, e];
    assert [] + a == a;
    ConcatPlus([a, b, c, e], rest);
  }

  lemma NoFields()
    ensures Concat([]) == []
  {
  }

  /** Numbers of `n` bytes each, one after the other. */
  lemma {:induction false} WordsInPlace(vs: seq<nat>, n: nat, i: nat)
    requires i < |vs|
    ensures |Concat(Words(vs, n))| == n * |vs| && n * i + n <= n * |vs|
    ensures Concat(Words(vs, n))[n * i..n * i + n] == WordBytes(vs[i], n)
    decreases |vs|
  {
    hide Concat, WordBytes;
    var m := |vs| - 1;
    var rest := Concat(Words(vs[..m], n));
    assert Words(vs, n) == Words(vs[..m], n) + [WordBytes(vs[m], n)];
    ConcatOne(Words(vs[..m], n), WordBytes(vs[m], n));
    MulMonotone(i, m, n, n);
    assert n * |vs| == n * m + n && n * i <= n * m;
    WordsLength(vs[..m], n);
    if i < m {
      WordsInPlace(vs[..m], n, i);
      assert (rest + WordBytes(vs[m], n))[n * i..n * i + n] == rest[n * i..n * i + n];
    }
  }

  lemma {:induction false} WordsLength(vs: seq<nat>, n: nat)
    ensures |Concat(Words(vs, n))| == n * |vs|
    decreases |vs|
  {
    hide WordBytes;
    if vs != [] {
      var m := |vs| - 1;
      WordsLength(vs[..m], n);
      assert Words(vs, n) == Words(vs[..m], n) + [WordBytes(vs[m], n)];
      ConcatOne(Words(vs[..m], n), WordBytes(vs[m], n));
      assert n * |vs| == n * m + n;
    }
  }

  /** The fixed header and the shape of an encoded descriptor, at the offsets of the format. */
  lemma HeaderTable(d: Descriptor, bytes: Bytes)
    requires bytes == Concat(Fields(d, |bytes|)) && |bytes| < D.U32_LIMIT && |d.dims| < D.U32_LIMIT
    ensures |bytes| >= 28 + 8 * |d.dims|
    ensures bytes[..4] == [0x48, 0x52, 0x52, 0x59] && bytes[4] == d.major && bytes[5] == d.minor
    ensures LittleEndian(bytes[6..10]) == |bytes| && LittleEndian(bytes[10..14]) == d.Flags()
    ensures bytes[14] == d.typeTag && bytes[15] == d.layoutTag && LittleEndian(bytes[16..20]) == |d.dims|
    ensures forall i :: 0 <= i < |d.dims| ==> LittleEndian(bytes[20 + 8 * i..28 + 8 * i]) == d.dims[i]
  {
    hide LittleEndian, WordBytes, Concat, AfterLength;
    var flags, rank := WordBytes(d.Flags(), 4), WordBytes(|d.dims|, 4);
    var shape, rest := Concat(Words(d.dims, 8)), [WordBytes(d.byteOffset, 8)] + BodyFields(d);
    LengthInPlace(d, |bytes|);
    AfterLengthParts(d);
    assert bytes == (MAGIC + [d.major] + [d.minor]) + WordBytes(|bytes|, 4)
                    + (flags + [d.typeTag] + [d.layoutTag] + rank + (shape + Concat(rest)));
    WordsLength(d.dims, 8);
    ByteLimits();
    WordRoundTrip(|bytes|, 4);
    WordRoundTrip(d.Flags(), 4);
    WordRoundTrip(|d.dims|, 4);
    assert bytes[6..10] == WordBytes(|bytes|, 4) && bytes[10..14] == flags && bytes[16..20] == rank;
    forall i | 0 <= i < |d.dims|
      ensures LittleEndian(bytes[20 + 8 * i..28 + 8 * i]) == d.dims[i]
    {
      WordsInPlace(d.dims, 8, i);
      WordRoundTrip(d.dims[i], 8);
      assert bytes[20 + 8 * i..28 + 8 * i] == shape[8 * i..8 * i + 8];
    }
  }

  lemma AfterLengthParts(d: Descriptor)
    requires |d.dims| < D.U32_LIMIT
    ensures var rest := [WordBytes(d.byteOffset, 8)] + BodyFields(d);
            && Concat(AfterLength(d)) ==
               WordBytes(d.Flags(), 4) + [d.typeTag] + [d.layoutTag] + WordBytes(|d.dims|, 4)
               + (Concat(Words(d.dims, 8)) + Concat(rest))
            && |Concat(rest)| >= 8
  {
    hide Concat, WordBytes, BodyFields, Words;
    var flags, rank, offset := WordBytes(d.Flags(), 4), WordBytes(|d.dims|, 4), WordBytes(d.byteOffset, 8);
    var rest := [offset] + BodyFields(d);
    ConcatFour(flags, [d.typeTag], [d.layoutTag], rank, Words(d.dims, 8) + rest);
    ConcatPlus(Words(d.dims, 8), rest);
    assert AfterLength(d) == [flags, [d.typeTag], [d.layoutTag], rank] + (Words(d.dims, 8) + rest);
    NoFields();
    ConcatOne([], offset);
    assert [] + [offset] == [offset];
    ConcatPlus([offset], BodyFields(d));
  }

  lemma ByteLimits()
    ensures Pow(256, 4) == D.U32_LIMIT && Pow(256, 8) == U64_LIMIT
  {
    SmallPowers();
    assert Pow(256, 4) == 256 * Pow(256, 3);
    PowAdd(256, 4, 4);
  }

  // ---- sections of a fixed layout ----

  lemma Four(a: Bytes, b: Bytes, c: Bytes, e: Bytes)
    ensures Concat([a, b, c, e]) == a + b + c + e
  {
    ConcatFour(a, b, c, e, []);
    NoFields();
    assert [a, b, c, e] + [] == [a, b, c, e] && a + b + c + e + [] == a + b + c + e;
  }

  lemma Two(a: Bytes, b: Bytes)
    ensures Concat([a, b]) == a + b
  {
    NoFields();
    ConcatOne([], a);
    ConcatOne([a], b);
    assert [] + [a] == [a] && [a] + [b] == [a, b] && [] + a == a;
  }

  /** A number of a field type is read back from its bytes. */
  lemma Word4(v: D.U32)
    ensures LittleEndian(WordBytes(v, 4)) == v
  {
    ByteLimits();
    WordRoundTrip(v, 4);
  }

  lemma Word8(v: U64)
    ensures LittleEndian(WordBytes(v, 8)) == v
  {
    ByteLimits();
    WordRoundTrip(v, 8);
  }

  /** An entry of the buffer table. */
  lemma HandleTable(h: Handle)
    ensures var b := Concat(OneHandle(h));
            && |b| == 16 && LittleEndian(b[..8]) == h.byteSize && LittleEndian(b[8..12]) == h.alignment
            && b[12] == h.device && b[13] == h.sync && b[14] == h.memoryClass && b[15] == 0
  {
    hide LittleEndian, WordBytes, Concat;
    var size, alignment := WordBytes(h.byteSize, 8), WordBytes(h.alignment, 4);
    ConcatFour(size, alignment, [h.device], [h.sync], [[h.memoryClass], Zeros(1)]);
    assert OneHandle(h) == [size, alignment, [h.device], [h.sync]] + [[h.memoryClass], Zeros(1)];
    Two([h.memoryClass], Zeros(1));
    var b := Concat(OneHandle(h));
    assert b == size + alignment + [h.device] + [h.sync] + ([h.memoryClass] + Zeros(1));
    Word8(h.byteSize);
    Word4(h.alignment);
    assert b[..8] == size && b[8..12] == alignment;
  }

  /** The statistics section. */
  lemma StatisticsTable(s: Statistics)
    ensures var b := Concat(StatisticsFields(s));
            && |b| == 72 && LittleEndian(b[..4]) == s.mask && LittleEndian(b[8..16]) == s.nnz
            && LittleEndian(b[16..24]) == s.sparsity && LittleEndian(b[24..32]) == s.least
            && LittleEndian(b[32..40]) == s.largest && LittleEndian(b[40..48]) == s.absLargest
            && LittleEndian(b[48..56]) == s.mean && LittleEndian(b[56..64]) == s.deviation
            && b[64] == s.nmN && b[65] == s.nmM && b[66] == Flag(s.hasNan) && b[67] == Flag(s.hasInf)
  {
    hide LittleEndian, WordBytes, Concat, Flag;
    var mask, none, nnz, sparsity := WordBytes(s.mask, 4), WordBytes(0, 4), WordBytes(s.nnz, 8), WordBytes(s.sparsity, 8);
    var least, largest, abs, mean :=
      WordBytes(s.least, 8), WordBytes(s.largest, 8), WordBytes(s.absLargest, 8), WordBytes(s.mean, 8);
    var deviation := WordBytes(s.deviation, 8);
    var tail := [[s.nmM], [Flag(s.hasNan)], [Flag(s.hasInf)], Zeros(4)];
    StatisticsParts(s);
    Four([s.nmM], [Flag(s.hasNan)], [Flag(s.hasInf)], Zeros(4));
    ConcatFour(mask, none, nnz, sparsity, [least, largest, abs, mean] + ([deviation, [s.nmN]] + tail));
    ConcatFour(least, largest, abs, mean, [deviation, [s.nmN]] + tail);
    Two(deviation, [s.nmN]);
    ConcatPlus([deviation, [s.nmN]], tail);
    var b := Concat(StatisticsFields(s));
    assert b == mask + none + nnz + sparsity
                + (least + largest + abs + mean + ((deviation + [s.nmN]) + ([s.nmM] + [Flag(s.hasNan)] + [Flag(s.hasInf)] + Zeros(4))));
    Word4(s.mask);
    Word8(s.nnz);
    Word8(s.sparsity);
    Word8(s.least);
    Word8(s.largest);
    Word8(s.absLargest);
    Word8(s.mean);
    Word8(s.deviation);
    assert b[..4] == mask && b[8..16] == nnz && b[16..24] == sparsity && b[24..32] == least && b[32..40] == largest
           && b[40..48] == abs && b[48..56] == mean && b[56..64] == deviation;
  }

  lemma StatisticsParts(s: Statistics)
    ensures StatisticsFields(s) ==
            [WordBytes(s.mask, 4), WordBytes(0, 4), WordBytes(s.nnz, 8), WordBytes(s.sparsity, 8)]
            + ([WordBytes(s.least, 8), WordBytes(s.largest, 8), WordBytes(s.absLargest, 8), WordBytes(s.mean, 8)]
               + ([WordBytes(s.deviation, 8), [s.nmN]] + [[s.nmM], [Flag(s.hasNan)], [Flag(s.hasInf)], Zeros(4)]))
  {
    hide WordBytes, Flag;
  }

  /** The extension type section. */
  lemma ExtensionTable(x: ExtensionType)
    ensures var b := Concat(ExtensionFields(x));
            && |b| == 20 && LittleEndian(b[..4]) == x.bitWidth && b[4] == x.packingFactor
            && b[5] == Flag(x.isFloat) && b[6] == Flag(x.isSigned) && b[7] == x.signBits
            && b[8] == x.exponentBits && b[9] == x.mantissaBits && LittleEndian(b[12..16]) == x.exponentBias
            && b[16] == Flag(x.hasNan) && b[17] == Flag(x.hasInf)
  {
    hide LittleEndian, WordBytes, Concat, Flag;
    var width, bias := WordBytes(x.bitWidth, 4), WordBytes(x.exponentBias, 4);
    var second := [[x.signBits], [x.exponentBits], [x.mantissaBits], Zeros(2)];
    var third := [bias, [Flag(x.hasNan)], [Flag(x.hasInf)], Zeros(2)];
    assert ExtensionFields(x) == [width, [x.packingFactor], [Flag(x.isFloat)], [Flag(x.isSigned)]] + (second + third);
    ConcatFour(width, [x.packingFactor], [Flag(x.isFloat)], [Flag(x.isSigned)], second + third);
    ConcatPlus(second, third);
    Four([x.signBits], [x.exponentBits], [x.mantissaBits], Zeros(2));
    Four(bias, [Flag(x.hasNan)], [Flag(x.hasInf)], Zeros(2));
    var front := width + [x.packingFactor] + [Flag(x.isFloat)] + [Flag(x.isSigned)]
                 + ([x.signBits] + [x.exponentBits] + [x.mantissaBits] + Zeros(2));
    var rest := [Flag(x.hasNan)] + [Flag(x.hasInf)] + Zeros(2);
    Regroup(width + [x.packingFactor] + [Flag(x.isFloat)] + [Flag(x.isSigned)],
            [x.signBits] + [x.exponentBits] + [x.mantissaBits] + Zeros(2), bias, [Flag(x.hasNan)], [Flag(x.hasInf)], Zeros(2));
    Between(front, bias, rest);
    Word4(x.bitWidth);
    Word4(x.exponentBias);
    assert Concat(ExtensionFields(x)) == front + bias + rest;
    assert front[..4] == width && (front + bias + rest)[..4] == front[..4];
  }

  lemma Regroup(a: Bytes, b: Bytes, c: Bytes, e: Bytes, f: Bytes, g: Bytes)
    ensures a + (b + (c + e + f + g)) == (a + b) + c + (e + f + g)
  {
  }

  /** What stands between a front and a rest is found right after the front. */
  lemma Between(front: Bytes, x: Bytes, rest: Bytes)
    ensures (front + x + rest)[|front|..|front| + |x|] == x
  {
  }

  /** The fields of a block-paged layout. */
  lemma BlockPagedTable(l: LayoutValue)
    requires l.BlockPagedValue?
    ensures var b := Concat(LayoutFieldsOf(l));
            && |b| == 32 && LittleEndian(b[..4]) == l.pageSize && LittleEndian(b[4..12]) == l.numPages
            && LittleEndian(b[12..16]) == l.pagedAxis && LittleEndian(b[16..20]) == l.numSeqs && b[20] == l.kvRole
            && LittleEndian(b[21..25]) == LayerWord(l.layerIndex) && b[25] == l.indexType
  {
    hide LittleEndian, WordBytes, Concat, LayerWord;
    var page, pages, axis, seqs := WordBytes(l.pageSize, 4), WordBytes(l.numPages, 8), WordBytes(l.pagedAxis, 4), WordBytes(l.numSeqs, 4);
    var layer := WordBytes(LayerWord(l.layerIndex), 4);
    assert LayoutFieldsOf(l) == [page, pages, axis, seqs] + [[l.kvRole], layer, [l.indexType], Zeros(6)];
    ConcatFour(page, pages, axis, seqs, [[l.kvRole], layer, [l.indexType], Zeros(6)]);
    Four([l.kvRole], layer, [l.indexType], Zeros(6));
    var b := Concat(LayoutFieldsOf(l));
    assert b == page + pages + axis + seqs + ([l.kvRole] + layer + [l.indexType] + Zeros(6));
    Word4(l.pageSize);
    Word8(l.numPages);
    Word4(l.pagedAxis);
    Word4(l.numSeqs);
    Word4(LayerWord(l.layerIndex));
    assert b[..4] == page && b[4..12] == pages && b[12..16] == axis && b[16..20] == seqs && b[21..25] == layer;
  }

  /** The fields of a composite head's layout. */
  lemma CompositeTable(rule: bv8, op: bv8, memberCount: D.U32)
    ensures var b := Concat(LayoutFieldsOf(CompositeValue(rule, op, memberCount)));
            |b| == 8 && b[0] == rule && b[1] == op && LittleEndian(b[4..]) == memberCount
  {
    hide LittleEndian, WordBytes, Concat;
    Four([rule], [op], Zeros(2), WordBytes(memberCount, 4));
    Word4(memberCount);
    assert ([rule] + [op] + Zeros(2) + WordBytes(memberCount, 4))[4..] == WordBytes(memberCount, 4);
  }

  /** A quantization section starts with its length. */
  lemma QuantizationTable(q: Bytes)
    requires |q| < D.U32_LIMIT
    ensures var b := Concat(QuantizationFields(Some(q)));
            |b| == 4 + |q| && LittleEndian(b[..4]) == |q| && b[4..] == q
  {
    hide LittleEndian, WordBytes, Concat;
    Two(WordBytes(|q|, 4), q);
    Word4(|q|);
    assert (WordBytes(|q|, 4) + q)[..4] == WordBytes(|q|, 4) && (WordBytes(|q|, 4) + q)[4..] == q;
  }
}
