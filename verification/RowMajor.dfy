/** Row-major addressing: the linear offset of an index, with checked word arithmetic. */
module RowMajor {
  import opened Shapes
  import opened Boxes
  import opened Packing

  /** The offset of an index: its first coordinate times the size of the rest, and so on. */
  ghost function Offset(dims: seq<nat>, x: Index): nat
    requires |x| == |dims|
  {
    if dims == [] then 0 else x[0] * Product(dims[1..]) + Offset(dims[1..], x[1..])
  }

  /** The index at an offset. */
  ghost function Unravel(dims: seq<nat>, n: nat): (x: Index)
    requires n < Product(dims)
    ensures IsCell(x, dims)
  {
    if dims == [] then
      []
    else
      var p := Product(dims[1..]);
      UnravelStep(n, dims[0], p);
      var rest := Unravel(dims[1..], n % p);
      OffsetCons(dims, n / p, rest);
      [n / p] + rest
  }

  /** The index at an offset has that offset. */
  lemma {:induction false} OffsetOfUnravel(dims: seq<nat>, n: nat)
    requires n < Product(dims)
    ensures Offset(dims, Unravel(dims, n)) == n
  {
    if dims != [] {
      var p := Product(dims[1..]);
      UnravelStep(n, dims[0], p);
      var first: nat, low: nat := n / p, n % p;
      OffsetOfUnravel(dims[1..], low);
      OffsetParts(dims, first, low, Unravel(dims[1..], low), n);
    }
  }

  lemma OffsetParts(dims: seq<nat>, first: nat, low: nat, rest: Index, n: nat)
    requires dims != [] && IsCell(rest, dims[1..]) && first < dims[0]
    requires Offset(dims[1..], rest) == low && n == first * Product(dims[1..]) + low
    ensures Offset(dims, [first] + rest) == n
  {
    OffsetCons(dims, first, rest);
  }

  lemma UnravelStep(n: nat, d: nat, p: nat)
    requires n < d * p
    ensures p > 0 && 0 <= n % p < p && 0 <= n / p < d && n == (n / p) * p + n % p
  {
    if p > 0 { QuotientBelow(n, p, d); }
  }

  lemma OffsetCons(dims: seq<nat>, first: nat, rest: Index)
    requires dims != [] && IsCell(rest, dims[1..]) && first < dims[0]
    ensures IsCell([first] + rest, dims)
    ensures Offset(dims, [first] + rest) == first * Product(dims[1..]) + Offset(dims[1..], rest)
  {
    assert ([first] + rest)[1..] == rest;
    forall k | 0 <= k < |dims|
      ensures ([first] + rest)[k] < dims[k]
    {
      if k > 0 { assert dims[k] == dims[1..][k - 1]; }
    }
  }

  lemma {:induction false} OffsetBound(dims: seq<nat>, x: Index)
    requires IsCell(x, dims)
    ensures Offset(dims, x) < Product(dims)
  {
    if dims != [] {
      var p := Product(dims[1..]);
      OffsetBound(dims[1..], x[1..]);
      MulMonotone(x[0] + 1, dims[0], p, p);
      assert (x[0] + 1) * p == x[0] * p + p;
    }
  }

  lemma SplitOffset(n: nat, p: nat, a: nat, b: nat)
    requires n == a * p + b && b < p
    ensures n / p == a && n % p == b
  {
    DivUnique(n, p, a, b);
  }

  /** Every cell is the index at its own offset; with the converse, offsets number the cells of
      a shape without gaps or repetition. */
  lemma {:induction false} OffsetIsBijection(dims: seq<nat>, x: Index)
    requires IsCell(x, dims)
    ensures Offset(dims, x) < Product(dims)
    ensures Unravel(dims, Offset(dims, x)) == x
  {
    OffsetBound(dims, x);
    if dims != [] {
      OffsetIsBijection(dims[1..], x[1..]);
      SplitOffset(Offset(dims, x), Product(dims[1..]), x[0], Offset(dims[1..], x[1..]));
      assert x == [x[0]] + x[1..];
    }
  }

  // ---- the checked computation ----

  lemma OffsetStep(dims: seq<nat>, x: Index, k: nat)
    requires |x| == |dims| && k < |dims|
    ensures Offset(dims[k..], x[k..]) == x[k] * Product(dims[k + 1..]) + Offset(dims[k + 1..], x[k + 1..])
    ensures Product(dims[k..]) == dims[k] * Product(dims[k + 1..])
  {
    assert dims[k..][1..] == dims[k + 1..] && x[k..][1..] == x[k + 1..];
  }

  /** Along a cell, partial strides and offsets only grow towards the first dimension. */
  lemma {:induction false} PartsGrow(dims: seq<nat>, x: Index, j: nat, k: nat)
    requires IsCell(x, dims) && j <= k <= |dims|
    ensures Product(dims[k..]) <= Product(dims[j..])
    ensures Offset(dims[k..], x[k..]) <= Offset(dims[j..], x[j..])
    decreases k - j
  {
    if j < k {
      PartsGrow(dims, x, j + 1, k);
      OffsetStep(dims, x, j);
      assert x[j] < dims[j];
      assert 0 <= x[j] * Product(dims[j + 1..]);
      StrideGrows(dims[j], Product(dims[j + 1..]));
    }
  }

  lemma StrideGrows(d: nat, p: nat)
    requires d > 0
    ensures p <= d * p
  {
    MulMonotone(1, d, p, p);
  }

  /** When the checked computation goes through: the largest stride and the offset fit. */
  ghost predicate Addressable(dims: seq<nat>, x: Index)
    requires |x| == |dims|
  {
    Offset(dims, x) < U64_LIMIT && (dims != [] ==> Product(dims[1..]) < U64_LIMIT)
  }

  /** Cells of a countable shape are always addressable. */
  lemma CountedIsAddressable(dims: seq<U64>, x: Index)
    requires IsCell(x, dims) && CountFits(dims)
    ensures Addressable(dims, x)
  {
    assert dims[..|dims|] == dims;
    OffsetBound(dims, x);
    if dims != [] {
      PartsGrow(dims, x, 0, 1);
      assert dims[0..] == dims;
    }
  }

  lemma PartsFit(dims: seq<U64>, x: Index, k: nat)
    requires IsCell(x, dims) && k < |dims| && Addressable(dims, x)
    ensures Offset(dims[k..], x[k..]) < U64_LIMIT
    ensures k > 0 ==> Product(dims[k..]) < U64_LIMIT
  {
    PartsGrow(dims, x, 0, k);
    assert dims[0..] == dims && x[0..] == x;
    if k > 0 { PartsGrow(dims, x, 1, k); }
  }

  /** A part that does not fit means the whole is not addressable. */
  lemma PartsMiss(dims: seq<U64>, x: Index, k: nat)
    requires IsCell(x, dims) && k < |dims|
    requires Offset(dims[k..], x[k..]) >= U64_LIMIT || (k > 0 && Product(dims[k..]) >= U64_LIMIT)
    ensures !Addressable(dims, x)
  {
    if Addressable(dims, x) { PartsFit(dims, x, k); }
  }

  datatype AddressError = RankMismatch | DynamicDim(dim: nat) | OutOfRange(dim: nat) | Overflow

  datatype Address = At(offset: U64) | Rejected(error: AddressError)

  /** One pass from the last dimension to the first, with every step checked. */
  method RowMajorOffset(index: seq<U64>, dims: seq<U64>) returns (r: Address)
    requires IsCell(index, dims)
    ensures r.At? <==> Addressable(dims, index)
    ensures r.At? ==> r.offset == Offset(dims, index)
    ensures r.Rejected? ==> r.error == Overflow
  {
    var offset: int := 0;
    var stride: int := 1;
    for k := |index| downto 0
      invariant 0 <= offset < U64_LIMIT && 0 <= stride < U64_LIMIT
      invariant offset == Offset(dims[k..], index[k..])
      invariant k > 0 || |index| == 0 ==> stride == Product(dims[k..])
      invariant k == 0 && |index| > 0 ==> stride == Product(dims[1..])
    {
      OffsetStep(dims, index, k);
      var sum := offset + index[k] * stride;
      if sum >= U64_LIMIT {
        PartsMiss(dims, index, k);
        return Rejected(Overflow);
      }
      offset := sum;
      if k > 0 {
        if stride * dims[k] >= U64_LIMIT {
          PartsMiss(dims, index, k);
          return Rejected(Overflow);
        }
        stride := stride * dims[k];
      }
    }
    assert dims[0..] == dims && index[0..] == index;
    return At(offset);
  }

  /** What is wrong with an index: its rank, or else the first dimension whose size is not known or
      that it leaves. */
  ghost predicate Misses(index: seq<U64>, dims: seq<U64>, e: AddressError) {
    match e
    case RankMismatch => |index| != |dims|
    case DynamicDim(k) => FirstMiss(index, dims, k) && dims[k] == DYNAMIC
    case OutOfRange(k) => FirstMiss(index, dims, k) && dims[k] != DYNAMIC && index[k] >= dims[k]
    case Overflow => false
  }

  ghost predicate FirstMiss(index: seq<U64>, dims: seq<U64>, k: nat) {
    k < |index| == |dims| && forall j :: 0 <= j < k ==> dims[j] != DYNAMIC && index[j] < dims[j]
  }

  /** Rank, then every dimension in order. */
  method ValidateIndex(index: seq<U64>, dims: seq<U64>) returns (r: Option<AddressError>)
    ensures r.None? <==> IsCell(index, dims) && DYNAMIC !in dims
    ensures r.Some? ==> Misses(index, dims, r.value)
  {
    if |index| != |dims| {
      return Some(RankMismatch);
    }
    for k := 0 to |dims|
      invariant forall j :: 0 <= j < k ==> dims[j] != DYNAMIC && index[j] < dims[j]
    {
      if dims[k] == DYNAMIC {
        return Some(DynamicDim(k));
      }
      if index[k] >= dims[k] {
        return Some(OutOfRange(k));
      }
    }
    r := None;
  }

  /** Validation, then the offset. */
  method ElementOffset(index: seq<U64>, dims: seq<U64>) returns (r: Address)
    ensures r.At? <==> IsCell(index, dims) && DYNAMIC !in dims && Addressable(dims, index)
    ensures r.At? ==> r.offset == Offset(dims, index)
    ensures r == Rejected(Overflow) <==> IsCell(index, dims) && DYNAMIC !in dims && !Addressable(dims, index)
    ensures r.Rejected? && r.error != Overflow ==> Misses(index, dims, r.error)
  {
    var invalid := ValidateIndex(index, dims);
    if invalid.Some? {
      return Rejected(invalid.value);
    }
    r := RowMajorOffset(index, dims);
  }
}
