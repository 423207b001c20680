/** Tensor shapes: dimension sizes are 64-bit words and the element count is a
    left-to-right product with checked multiplication. */
module Shapes {

  const U64_LIMIT: nat := 0x1_0000_0000_0000_0000

  /** The sentinel for a dimension whose size is not known yet. */
  const DYNAMIC: nat := 0xFFFF_FFFF_FFFF_FFFF

  /** A 64-bit unsigned word. */
  type U64 = x: int | 0 <= x < 0x1_0000_0000_0000_0000

  datatype Option<+T> = None | Some(value: T)

  function Min(a: nat, b: nat): nat {
    if a < b then a else b
  }

  /** The mathematical product of the dimensions, with no bound. */
  function Product(dims: seq<nat>): (p: nat)
  {
    if dims == [] then 1 else dims[0] * Product(dims[1..])
  }

  /** The left-to-right product stays in words: no prefix overflows. */
  ghost predicate PrefixesFit(dims: seq<nat>) {
    forall i :: 0 <= i <= |dims| ==> Product(dims[..i]) < U64_LIMIT
  }

  /** When counting succeeds: nothing is dynamic and no prefix overflows. */
  ghost predicate CountFits(dims: seq<nat>) {
    DYNAMIC !in dims && PrefixesFit(dims)
  }

  /** The specification of the element count. */
  ghost function CountOf(dims: seq<nat>): Option<nat> {
    if CountFits(dims) then Some(Product(dims)) else None
  }

  predicate HasDynamic(dims: seq<nat>) {
    DYNAMIC in dims
  }

  // ---- products ----

  lemma {:induction false} ProductConcat(a: seq<nat>, b: seq<nat>)
    ensures Product(a + b) == Product(a) * Product(b)
  {
    if a == [] {
      assert a + b == b;
    } else {
      ProductConcat(a[1..], b);
      assert (a + b)[1..] == a[1..] + b;
      MulAssoc(a[0], Product(a[1..]), Product(b));
    }
  }

  lemma MulAssoc(x: int, y: int, z: int)
    ensures x * (y * z) == (x * y) * z
  {
  }

  lemma ProductSnoc(dims: seq<nat>, i: nat)
    requires i < |dims|
    ensures Product(dims[..i + 1]) == Product(dims[..i]) * dims[i]
  {
    assert dims[..i + 1] == dims[..i] + [dims[i]];
    ProductConcat(dims[..i], [dims[i]]);
    assert Product([dims[i]]) == dims[i] * Product([dims[i]][1..]);
  }

  /** Smaller dimensions have a smaller product. */
  lemma {:induction false} ProductMonotone(a: seq<nat>, b: seq<nat>)
    requires |a| == |b|
    requires forall k :: 0 <= k < |a| ==> a[k] <= b[k]
    ensures Product(a) <= Product(b)
  {
    if a != [] {
      ProductMonotone(a[1..], b[1..]);
      MulMonotone(a[0], b[0], Product(a[1..]), Product(b[1..]));
    }
  }

  lemma MulMonotone(x: nat, y: nat, p: nat, q: nat)
    requires x <= y && p <= q
    ensures x * p <= y * q
  {
    assert x * p <= x * q;
    assert x * q <= y * q;
  }

  /** A product is zero exactly when a dimension is. */
  lemma {:induction false} ProductZero(dims: seq<nat>)
    ensures Product(dims) == 0 <==> 0 in dims
  {
    if dims != [] {
      ProductZero(dims[1..]);
      assert dims == [dims[0]] + dims[1..];
      if dims[0] != 0 && Product(dims[1..]) != 0 {
        assert dims[0] * Product(dims[1..]) != 0;
      }
    }
  }

  // ---- Shape::element_count ----

  /** The counting loop, with its early exits on a dynamic dimension and on overflow. */
  method ElementCount(dims: seq<U64>) returns (count: Option<U64>)
    ensures count.Some? <==> CountFits(dims)
    ensures count.Some? ==> count.value == Product(dims)
  {
    var product: int := 1;
    for i := 0 to |dims|
      invariant 0 <= product < U64_LIMIT
      invariant product == Product(dims[..i])
      invariant DYNAMIC !in dims[..i]
      invariant forall j :: 0 <= j <= i ==> Product(dims[..j]) < U64_LIMIT
    {
      ProductSnoc(dims, i);
      assert dims[..i + 1] == dims[..i] + [dims[i]];
      if dims[i] == DYNAMIC {
        return None;
      }
      if product * dims[i] >= U64_LIMIT {
        return None;
      }
      product := product * dims[i];
    }
    assert dims[..|dims|] == dims;
    return Some(product);
  }

  /** Checked counting succeeds on every shape that is pointwise below one it succeeds on. */
  lemma CountFitsMonotone(small: seq<U64>, large: seq<U64>)
    requires |small| == |large|
    requires forall k :: 0 <= k < |small| ==> small[k] <= large[k]
    requires CountFits(large)
    ensures CountFits(small)
  {
    forall i | 0 <= i <= |small|
      ensures Product(small[..i]) < U64_LIMIT
    {
      ProductMonotone(small[..i], large[..i]);
    }
    forall k | 0 <= k < |small|
      ensures small[k] != DYNAMIC
    {
      assert large[k] in large;
    }
  }

  /** For a static shape with an empty dimension the count is zero exactly when nothing
      overflows before the first empty dimension `z`; after it every prefix product is zero. */
  lemma ZeroDimensionCount(dims: seq<U64>, z: nat)
    requires DYNAMIC !in dims
    requires z < |dims| && dims[z] == 0 && 0 !in dims[..z]
    ensures CountOf(dims) == Some(0) <==> Product(dims[..z]) < U64_LIMIT
    ensures CountOf(dims) == None <==> Product(dims[..z]) >= U64_LIMIT
  {
    ProductZero(dims);
    forall i | z < i <= |dims|
      ensures Product(dims[..i]) == 0
    {
      assert dims[..i][z] == 0;
      ProductZero(dims[..i]);
    }
    forall i | 0 <= i <= z
      ensures Product(dims[..i]) <= Product(dims[..z])
    {
      PrefixBelow(dims[..z], i);
      assert dims[..z][..i] == dims[..i];
    }
  }

  /** With no empty dimension, a prefix product is at most the whole product. */
  lemma PrefixBelow(dims: seq<nat>, i: nat)
    requires i <= |dims| && 0 !in dims
    ensures Product(dims[..i]) <= Product(dims)
    ensures Product(dims[i..]) <= Product(dims)
    ensures Product(dims[i..]) > 0
  {
    assert dims == dims[..i] + dims[i..];
    ProductConcat(dims[..i], dims[i..]);
    ProductZero(dims[..i]);
    ProductZero(dims[i..]);
    MulMonotone(1, Product(dims[i..]), Product(dims[..i]), Product(dims[..i]));
    MulMonotone(1, Product(dims[..i]), Product(dims[i..]), Product(dims[i..]));
  }

  /** The documented claim "an empty dimension makes the count zero" is false of this shape. */
  lemma EmptyShapeWithoutCount()
    ensures CountOf([0x8000_0000_0000_0000, 2, 0]) == None
    ensures CountOf([0, 0x8000_0000_0000_0000, 2]) == Some(0)
  {
    var late := [0x8000_0000_0000_0000, 2, 0];
    assert late[..2] == [0x8000_0000_0000_0000, 2];
    assert Product([2]) == 2 * Product([2][1..]);
    assert [0x8000_0000_0000_0000, 2][1..] == [2];
    assert Product(late[..2]) == U64_LIMIT;
    ZeroDimensionCount(late, 2);
    ZeroDimensionCount([0, 0x8000_0000_0000_0000, 2], 0);
  }
}
