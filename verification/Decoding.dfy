/** Turning element codes into values: two's-complement integers and micro-floats. */
module Decoding {
  import opened Shapes
  import opened Packing

  // ---- sign extension ----

  /** The signed reading of a 64-bit word. */
  function Signed64(x: nat): int {
    var m := x % U64_LIMIT;
    if m < U64_LIMIT / 2 then m else m - U64_LIMIT
  }

  /** Shift left to the top of a 64-bit word, then shift right arithmetically. */
  function SignExtend(code: nat, bits: nat): int
    requires 1 <= bits <= 64
  {
    PowPositive(2, 64 - bits);
    Signed64(code * Pow(2, 64 - bits)) / Pow(2, 64 - bits)
  }

  /** The two's-complement value of the low `bits` bits of a code. */
  function TwosComplement(code: nat, bits: nat): int
    requires bits >= 1
  {
    PowPositive(2, bits);
    var c := code % Pow(2, bits);
    if c < Pow(2, bits - 1) then c else c - Pow(2, bits)
  }

  /** Shifting left keeps only the low bits of the code. */
  lemma ShiftedWord(code: nat, m: nat, p: nat)
    requires m > 0 && p > 0
    ensures m * p > 0 && (code * p) % (m * p) == (code % m) * p
  {
    var q, c := code / m, code % m;
    assert code == m * q + c;
    MulPositive(m, p);
    assert code * p == (m * p) * q + c * p;
    MulMonotone(c + 1, m, p, p);
    assert (c + 1) * p == c * p + p;
    DivUnique(code * p, m * p, q, c * p);
  }

  lemma MulAtLeast(d: nat, k: int)
    requires k >= 1
    ensures d * k >= d
  {
  }

  lemma ExactDivision(c: int, p: nat)
    requires p > 0
    ensures (c * p) / p == c
  {
    var q, r := (c * p) / p, (c * p) % p;
    assert c * p == p * q + r;
    assert p * (c - q) == c * p - p * q && p * (q - c) == p * q - c * p;
    if c > q { MulAtLeast(p, c - q); }
    if c < q { MulAtLeast(p, q - c); }
  }

  lemma SignedLow(c: nat, h: nat, p: nat)
    requires c < h && p > 0 && h * p == U64_LIMIT / 2
    ensures Signed64(c * p) == c * p
  {
    MulMonotone(c + 1, h, p, p);
    assert (c + 1) * p == c * p + p;
  }

  lemma SignedHigh(c: nat, h: nat, m: nat, p: nat)
    requires h <= c < m && p > 0 && h * p == U64_LIMIT / 2 && m * p == U64_LIMIT
    ensures Signed64(c * p) == (c - m) * p
  {
    MulMonotone(h, c, p, p);
    MulMonotone(c + 1, m, p, p);
    assert (c + 1) * p == c * p + p;
    assert (c - m) * p == c * p - m * p;
  }

  lemma SignedPeriod(code: nat, m: nat, p: nat)
    requires m > 0 && p > 0 && m * p == U64_LIMIT
    ensures Signed64(code * p) == Signed64((code % m) * p)
  {
    ShiftedWord(code, m, p);
    assert ((code % m) * p) % U64_LIMIT == ((code * p) % U64_LIMIT) % U64_LIMIT;
  }

  /** With `p` for the amount shifted, `m` for the modulus and `h` for its half. */
  lemma SignExtendBy(code: nat, h: nat, m: nat, p: nat)
    requires m > 0 && p > 0 && m * p == U64_LIMIT && h * p == U64_LIMIT / 2
    ensures Signed64(code * p) / p == if code % m < h then code % m else code % m - m
  {
    var c := code % m;
    SignedPeriod(code, m, p);
    if c < h {
      SignedLow(c, h, p);
      ExactDivision(c, p);
    } else {
      SignedHigh(c, h, m, p);
      ExactDivision(c - m, p);
    }
  }

  /** Sign extension is two's complement, for every width and every code. */
  lemma SignExtendIsTwosComplement(code: nat, bits: nat)
    requires 1 <= bits <= 64
    ensures SignExtend(code, bits) == TwosComplement(code, bits)
  {
    PowPositive(2, 64 - bits);
    PowPositive(2, bits);
    Pow64();
    PowAdd(2, bits, 64 - bits);
    PowAdd(2, bits - 1, 64 - bits);
    SignExtendBy(code, Pow(2, bits - 1), Pow(2, bits), Pow(2, 64 - bits));
  }

  // ---- micro-floats ----

  /** The value of a code; a zero's sign is not kept. */
  datatype Float = NotANumber | Infinite(negative: bool) | Finite(value: real)

  /** A micro-float format: field widths, bias, and how the top exponent is used. */
  datatype Format = Format(expBits: nat, manBits: nat, bias: int, hasInf: bool, nanAtMax: bool)

  /** `x` times two to an integer power, by doubling and halving. */
  function Scale(x: real, k: int): real
    decreases if k >= 0 then k else -k
  {
    if k == 0 then x else if k > 0 then Scale(2.0 * x, k - 1) else Scale(x / 2.0, k + 1)
  }

  /** The sign bit. */
  predicate Negative(f: Format, code: nat) {
    PowPositive(2, f.expBits + f.manBits);
    code / Pow(2, f.expBits + f.manBits) % 2 == 1
  }

  function ExponentOf(f: Format, code: nat): nat {
    PowPositive(2, f.manBits);
    PowPositive(2, f.expBits);
    code / Pow(2, f.manBits) % Pow(2, f.expBits)
  }

  function MantissaOf(f: Format, code: nat): nat {
    PowPositive(2, f.manBits);
    code % Pow(2, f.manBits)
  }

  /** The mantissa divided by its range, a power of two. */
  function Fraction(f: Format, man: nat): real {
    Scale(man as real, -(f.manBits as int))
  }

  /** Subnormal codes scale the fraction alone, normal ones have a leading one. */
  function Magnitude(f: Format, exp: nat, man: nat): real {
    if exp == 0 then Scale(Fraction(f, man), 1 - f.bias) else Scale(1.0 + Fraction(f, man), exp - f.bias)
  }

  /** The value of the three fields, with the format's special values. */
  function FieldsValue(f: Format, negative: bool, exp: nat, man: nat): Float {
    var maxExp, manMask := Pow(2, f.expBits) - 1, Pow(2, f.manBits) - 1;
    if exp == maxExp && f.hasInf then (if man == 0 then Infinite(negative) else NotANumber)
    else if exp == maxExp && f.nanAtMax && man == manMask then NotANumber
    else Finite(if negative then -Magnitude(f, exp, man) else Magnitude(f, exp, man))
  }

  /** Decodes sign, exponent and mantissa, from the most significant bit down. */
  function MicroFloat(f: Format, code: nat): Float {
    FieldsValue(f, Negative(f, code), ExponentOf(f, code), MantissaOf(f, code))
  }

  // ---- scaling ----

  lemma {:induction false} ScaleMonotone(x: real, y: real, k: int)
    requires x < y
    ensures Scale(x, k) < Scale(y, k)
    decreases if k >= 0 then k else -k
  {
    if k > 0 { ScaleMonotone(2.0 * x, 2.0 * y, k - 1); }
    if k < 0 { ScaleMonotone(x / 2.0, y / 2.0, k + 1); }
  }

  lemma {:induction false} ScaleDouble(x: real, k: int)
    ensures Scale(x, k + 1) == Scale(2.0 * x, k)
    decreases if k >= 0 then k else -k
  {
    if k < -1 { ScaleDouble(x / 2.0, k + 1); }
  }

  lemma {:induction false} ScaleWhole(n: nat)
    ensures Scale(Pow(2, n) as real, -(n as int)) == 1.0
    decreases n
  {
    if n > 0 {
      assert Pow(2, n) as real / 2.0 == Pow(2, n - 1) as real;
      ScaleWhole(n - 1);
    }
  }

  lemma {:induction false} ScaleZero(k: int)
    ensures Scale(0.0, k) == 0.0
    decreases if k >= 0 then k else -k
  {
    if k > 0 { ScaleZero(k - 1); }
    if k < 0 { ScaleZero(k + 1); }
  }

  lemma {:induction false} ScaleSum(x: real, y: real, k: int)
    ensures Scale(x + y, k) == Scale(x, k) + Scale(y, k)
    decreases if k >= 0 then k else -k
  {
    if k > 0 { ScaleSum(2.0 * x, 2.0 * y, k - 1); }
    if k < 0 { ScaleSum(x / 2.0, y / 2.0, k + 1); }
  }

  lemma {:induction false} ScaleTwice(x: real, j: int, k: int)
    ensures Scale(Scale(x, j), k) == Scale(x, j + k)
    decreases if j >= 0 then j else -j
  {
    if j > 0 {
      ScaleTwice(2.0 * x, j - 1, k);
      ScaleDouble(x, j - 1 + k);
    }
    if j < 0 {
      ScaleTwice(x / 2.0, j + 1, k);
      ScaleDouble(x / 2.0, j + k);
    }
  }

  lemma FractionBelowOne(f: Format, man: nat)
    requires man < Pow(2, f.manBits)
    ensures Fraction(f, man) < 1.0
  {
    ScaleWhole(f.manBits);
    ScaleMonotone(man as real, Pow(2, f.manBits) as real, -(f.manBits as int));
  }

  /** Magnitudes grow from one mantissa to the next and from the last one of an exponent to
      the first one of the next exponent, the step out of the subnormals included. */
  lemma MagnitudeGrows(f: Format, exp: nat, man: nat)
    requires man < Pow(2, f.manBits)
    ensures Magnitude(f, exp, man) < Magnitude(f, exp, man + 1)
    ensures Magnitude(f, exp, man) < Magnitude(f, exp + 1, 0)
  {
    var x, y := Fraction(f, man), Fraction(f, man + 1);
    ScaleMonotone(man as real, (man + 1) as real, -(f.manBits as int));
    FractionBelowOne(f, man);
    ScaleZero(-(f.manBits as int));
    if exp == 0 {
      ScaleMonotone(x, y, 1 - f.bias);
      ScaleMonotone(x, 1.0, 1 - f.bias);
    } else {
      ScaleMonotone(1.0 + x, 1.0 + y, exp - f.bias);
      ScaleMonotone(1.0 + x, 2.0, exp - f.bias);
      ScaleDouble(1.0, exp - f.bias);
    }
  }

  // ---- strictly increasing ----

  /** Sign-free codes: the sign bit is clear and nothing lies above it. */
  ghost predicate SignFree(f: Format, code: nat) {
    code < Pow(2, f.expBits + f.manBits)
  }

  lemma Fields(f: Format, code: nat)
    requires SignFree(f, code)
    ensures Pow(2, f.manBits) > 0
    ensures ExponentOf(f, code) == code / Pow(2, f.manBits) && MantissaOf(f, code) == code % Pow(2, f.manBits)
    ensures !Negative(f, code)
  {
    var div, top := Pow(2, f.manBits), Pow(2, f.expBits);
    PowPositive(2, f.manBits);
    PowPositive(2, f.expBits);
    PowAdd(2, f.manBits, f.expBits);
    FieldBounds(code, div, top, Pow(2, f.expBits + f.manBits));
  }

  lemma FieldBounds(code: nat, div: nat, top: nat, all: nat)
    requires div > 0 && top > 0 && all == div * top && code < all
    ensures (code / div) % top == code / div && code / all == 0
  {
    QuotientBelow(code, div, top);
    SmallMod(code / div, top);
    SmallQuotient(code, all);
  }

  lemma SmallMod(n: nat, d: nat)
    requires n < d
    ensures n % d == n
  {
  }

  lemma SmallQuotient(n: nat, d: nat)
    requires n < d
    ensures n / d == 0
  {
  }

  lemma NextDivMod(code: nat, div: nat)
    requires div > 0
    ensures code % div + 1 < div ==> (code + 1) / div == code / div && (code + 1) % div == code % div + 1
    ensures code % div + 1 == div ==> (code + 1) / div == code / div + 1 && (code + 1) % div == 0
  {
    var exp, man := code / div, code % div;
    assert code == div * exp + man;
    assert div * (exp + 1) == div * exp + div;
    if man + 1 < div {
      DivUnique(code + 1, div, exp, man + 1);
    } else {
      DivUnique(code + 1, div, exp + 1, 0);
    }
  }

  lemma NextFields(f: Format, code: nat)
    requires SignFree(f, code + 1)
    ensures var div, exp, man := Pow(2, f.manBits), ExponentOf(f, code), MantissaOf(f, code);
            && man < div
            && (man + 1 < div ==> ExponentOf(f, code + 1) == exp && MantissaOf(f, code + 1) == man + 1)
            && (man + 1 == div ==> ExponentOf(f, code + 1) == exp + 1 && MantissaOf(f, code + 1) == 0)
  {
    Fields(f, code);
    Fields(f, code + 1);
    NextDivMod(code, Pow(2, f.manBits));
  }

  ghost function CodeMagnitude(f: Format, code: nat): real {
    Magnitude(f, ExponentOf(f, code), MantissaOf(f, code))
  }

  lemma {:induction false} MagnitudesIncrease(f: Format, a: nat, b: nat)
    requires a < b && SignFree(f, b)
    ensures CodeMagnitude(f, a) < CodeMagnitude(f, b)
    decreases b
  {
    NextFields(f, b - 1);
    MagnitudeGrows(f, ExponentOf(f, b - 1), MantissaOf(f, b - 1));
    if a < b - 1 { MagnitudesIncrease(f, a, b - 1); }
  }

  /** Decoding is strictly increasing on the finite sign-free codes of every format, so no two
      of them show the same value. */
  lemma MicroFloatIncreases(f: Format, a: nat, b: nat)
    requires a < b && SignFree(f, b)
    ensures MicroFloat(f, a).Finite? && MicroFloat(f, b).Finite? ==> MicroFloat(f, a).value < MicroFloat(f, b).value
  {
    Fields(f, a);
    Fields(f, b);
    MagnitudesIncrease(f, a, b);
  }

  // ---- the sign bit ----

  ghost function Negated(x: Float): Float {
    match x
    case NotANumber => NotANumber
    case Infinite(n) => Infinite(!n)
    case Finite(v) => Finite(-v)
  }

  lemma SignBitFields(f: Format, code: nat)
    requires SignFree(f, code)
    ensures var flipped := code + Pow(2, f.expBits + f.manBits);
            && ExponentOf(f, flipped) == ExponentOf(f, code) && MantissaOf(f, flipped) == MantissaOf(f, code)
            && Negative(f, flipped) && !Negative(f, code)
  {
    PowPositive(2, f.manBits);
    PowPositive(2, f.expBits);
    PowAdd(2, f.manBits, f.expBits);
    Fields(f, code);
    AddedAbove(code, Pow(2, f.manBits), Pow(2, f.expBits));
  }

  /** Adding `div * top` changes neither digit below it and sets the one above. */
  lemma AddedAbove(code: nat, div: nat, top: nat)
    requires div > 0 && top > 0 && code < div * top
    ensures var n := code + div * top;
            && n % div == code % div && n / div % top == code / div % top
            && n / (div * top) == 1
  {
    DivShift(code, div, top);
    ModShift(code, div, top);
    ModShift(code / div, top, 1);
    DivUnique(code + div * top, div * top, 1, code);
  }

  /** Setting the sign bit negates the value, special values included. */
  lemma SignBitNegates(f: Format, code: nat)
    requires SignFree(f, code)
    ensures MicroFloat(f, code + Pow(2, f.expBits + f.manBits)) == Negated(MicroFloat(f, code))
  {
    SignBitFields(f, code);
  }

  // ---- where the special values are ----

  lemma TopCodes(code: nat, div: nat, top: nat)
    requires div > 0 && top > 0 && code < div * top
    ensures code / div == top - 1 <==> code >= div * top - div
    ensures code / div == top - 1 && code % div == div - 1 <==> code == div * top - 1
  {
    var exp, man := code / div, code % div;
    assert code == div * exp + man;
    QuotientBelow(code, div, top);
    assert div * (top - 1) == div * top - div;
    assert div * (exp + 1) == div * exp + div;
    if exp < top - 1 { MulMonotone(div, div, exp + 1, top - 1); }
  }

  /** The sign-free codes that are not finite are the largest ones: all of the top exponent
      when it carries infinity, the very last code when only that one is a NaN, none otherwise. */
  lemma FiniteCodes(f: Format, code: nat)
    requires SignFree(f, code)
    ensures MicroFloat(f, code).Finite? <==>
            code < (if f.hasInf then Pow(2, f.expBits + f.manBits) - Pow(2, f.manBits)
                    else if f.nanAtMax then Pow(2, f.expBits + f.manBits) - 1
                    else Pow(2, f.expBits + f.manBits))
  {
    PowPositive(2, f.manBits);
    PowPositive(2, f.expBits);
    PowAdd(2, f.manBits, f.expBits);
    Fields(f, code);
    TopCodes(code, Pow(2, f.manBits), Pow(2, f.expBits));
  }

  lemma FirstTopCode(code: nat, div: nat, top: nat)
    requires div > 0 && top > 0 && code < div * top
    ensures code / div == top - 1 && code % div == 0 <==> code == div * top - div
  {
    assert code == div * (code / div) + code % div;
    assert div * (top - 1) == div * top - div;
    if code == div * top - div { DivUnique(code, div, top - 1, 0); }
  }

  /** Of the sign-free codes above the finite ones the first is infinity, in a format that has one,
      and every other is a NaN. */
  lemma InfiniteCode(f: Format, code: nat)
    requires SignFree(f, code) && !MicroFloat(f, code).Finite?
    ensures MicroFloat(f, code) ==
            if f.hasInf && code == Pow(2, f.expBits + f.manBits) - Pow(2, f.manBits) then Infinite(false) else NotANumber
  {
    PowPositive(2, f.manBits);
    PowPositive(2, f.expBits);
    PowAdd(2, f.manBits, f.expBits);
    Fields(f, code);
    FirstTopCode(code, Pow(2, f.manBits), Pow(2, f.expBits));
  }

  // ---- how far apart ----

  lemma MagnitudeStep(f: Format, exp: nat, man: nat)
    ensures Magnitude(f, exp, man + 1) == Magnitude(f, exp, man) + Scale(1.0, (if exp == 0 then 1 else exp) - f.bias - f.manBits)
  {
    var m := -(f.manBits as int);
    var k := if exp == 0 then 1 - f.bias else exp - f.bias;
    ScaleSum(man as real, 1.0, m);
    ScaleSum(Fraction(f, man) + if exp == 0 then 0.0 else 1.0, Scale(1.0, m), k);
    ScaleTwice(1.0, m, k);
  }

  /** A full mantissa carries into the exponent. */
  lemma MagnitudeCarry(f: Format, exp: nat)
    ensures Magnitude(f, exp + 1, 0) == Magnitude(f, exp, Pow(2, f.manBits))
  {
    ScaleWhole(f.manBits);
    ScaleZero(-(f.manBits as int));
    if exp > 0 { ScaleDouble(1.0, exp - f.bias); }
  }

  lemma CodeStep(f: Format, code: nat)
    requires SignFree(f, code + 1)
    ensures var exp := ExponentOf(f, code);
            CodeMagnitude(f, code + 1) == CodeMagnitude(f, code) + Scale(1.0, (if exp == 0 then 1 else exp) - f.bias - f.manBits)
  {
    var exp, man := ExponentOf(f, code), MantissaOf(f, code);
    NextFields(f, code);
    MagnitudeStep(f, exp, man);
    if man + 1 == Pow(2, f.manBits) { MagnitudeCarry(f, exp); }
  }

  /** The exponent of a sign-free code: zero exactly for the codes below `2^manBits`. */
  lemma CodeExponent(f: Format, code: nat)
    requires SignFree(f, code)
    ensures Pow(2, f.manBits) > 0 && ExponentOf(f, code) == code / Pow(2, f.manBits)
    ensures ExponentOf(f, code) == 0 <==> code < Pow(2, f.manBits)
    ensures code < 2 * Pow(2, f.manBits) ==> ExponentOf(f, code) <= 1
  {
    Fields(f, code);
    QuotientBounds(code, Pow(2, f.manBits));
  }

  lemma QuotientBounds(n: nat, d: nat)
    requires d > 0
    ensures n / d == 0 <==> n < d
    ensures n < 2 * d ==> n / d <= 1
  {
    if n < d { SmallQuotient(n, d); }
    if n < 2 * d { QuotientBelow(n, d, 2); }
  }

  lemma FiniteBelow(f: Format, a: nat, b: nat)
    requires a <= b && SignFree(f, b) && MicroFloat(f, b).Finite?
    ensures MicroFloat(f, a).Finite?
  {
    hide MicroFloat;
    FiniteCodes(f, a);
    FiniteCodes(f, b);
  }

  lemma FiniteMagnitude(f: Format, code: nat)
    requires SignFree(f, code) && MicroFloat(f, code).Finite?
    ensures MicroFloat(f, code).value == CodeMagnitude(f, code)
  {
    hide Magnitude;
    Fields(f, code);
  }

  /** Neighbouring finite codes are `2^(exponent - bias - manBits)` apart, subnormal ones as if their
      exponent were one. With code zero this fixes every value of every format. */
  lemma NeighboursApart(f: Format, code: nat)
    requires SignFree(f, code + 1) && MicroFloat(f, code + 1).Finite?
    ensures Pow(2, f.manBits) > 0 && MicroFloat(f, code).Finite?
    ensures MicroFloat(f, code + 1).value - MicroFloat(f, code).value
         == Scale(1.0, (if code < Pow(2, f.manBits) then 1 else code / Pow(2, f.manBits)) - f.bias - f.manBits)
  {
    hide MicroFloat, CodeMagnitude, Scale, Pow, ExponentOf;
    FiniteBelow(f, code, code + 1);
    FiniteMagnitude(f, code);
    FiniteMagnitude(f, code + 1);
    CodeStep(f, code);
    CodeExponent(f, code);
  }

  lemma OneMore(n: nat, step: real)
    ensures (n + 1) as real * step == n as real * step + step
  {
  }

  /** Up to the second exponent all codes are evenly spaced: a subnormal code, and every code of the
      first normal exponent, is that many times the smallest positive value. */
  lemma {:induction false} EvenlySpaced(f: Format, code: nat)
    requires SignFree(f, code) && MicroFloat(f, code).Finite? && code <= 2 * Pow(2, f.manBits)
    ensures MicroFloat(f, code) == Finite(code as real * Scale(1.0, 1 - f.bias - f.manBits))
    decreases code
  {
    hide MicroFloat, Scale, Pow, ExponentOf;
    if code == 0 {
      ZeroDecodes(f, 0);
    } else {
      NeighboursApart(f, code - 1);
      EvenlySpaced(f, code - 1);
      CodeExponent(f, code - 1);
      OneMore(code - 1, Scale(1.0, 1 - f.bias - f.manBits));
    }
  }

  // ---- the element formats ----

  const FLOAT8_E4M3: Format := Format(4, 3, 7, false, true)
  const FLOAT8_E5M2: Format := Format(5, 2, 15, true, false)
  const FLOAT6_E2M3: Format := Format(2, 3, 1, false, false)
  const FLOAT6_E3M2: Format := Format(3, 2, 3, false, false)
  const FLOAT4_E2M1: Format := Format(2, 1, 1, false, false)

  /** `top` decodes to `v`, the largest finite value: every finite code of the format, negative
      ones included, decodes to something between `-v` and `v`. */
  ghost predicate LargestFinite(f: Format, top: nat, v: real) {
    && SignFree(f, top) && MicroFloat(f, top) == Finite(v)
    && forall code: nat :: code < 2 * Pow(2, f.expBits + f.manBits) && MicroFloat(f, code).Finite? ==>
         -v <= MicroFloat(f, code).value <= v
  }

  /** A finite code that no finite sign-free code exceeds decodes to the largest finite value. */
  lemma LastFiniteIsLargest(f: Format, top: nat, v: real)
    requires SignFree(f, top) && MicroFloat(f, top) == Finite(v)
    requires forall code: nat :: SignFree(f, code) && MicroFloat(f, code).Finite? ==> code <= top
    ensures LargestFinite(f, top, v)
  {
    var sign := Pow(2, f.expBits + f.manBits);
    forall code: nat | code < 2 * sign && MicroFloat(f, code).Finite?
      ensures -v <= MicroFloat(f, code).value <= v
    {
      var c := if code < sign then code else code - sign;
      if code >= sign { SignBitNegates(f, c); }
      assert MicroFloat(f, c).Finite?;
      if c < top { MicroFloatIncreases(f, c, top); }
      if c > 0 { MicroFloatIncreases(f, 0, c); }
      ZeroDecodes(f, c);
    }
  }

  /** Code zero is finite whenever any sign-free code is, and decodes to zero. */
  lemma ZeroDecodes(f: Format, code: nat)
    requires SignFree(f, code) && MicroFloat(f, code).Finite?
    ensures MicroFloat(f, 0) == Finite(0.0)
  {
    PowPositive(2, f.manBits);
    Fields(f, 0);
    FiniteCodes(f, 0);
    FiniteCodes(f, code);
    assert ExponentOf(f, 0) == 0 && MantissaOf(f, 0) == 0;
    ScaleZero(-(f.manBits as int));
    ScaleZero(1 - f.bias);
  }

  lemma ValueE4M3()
    ensures MicroFloat(FLOAT8_E4M3, 0x7E) == Finite(448.0)
  {
    assert Scale(6.0, -3) == 0.75 && Scale(1.75, 8) == 448.0;
  }

  /** The largest finite values of the element formats of section 5.3 of the OCP Microscaling
      Formats (MX) v1.0 specification. */
  lemma LargestFiniteE4M3()
    ensures LargestFinite(FLOAT8_E4M3, 0x7E, 448.0)
  {
    var f := FLOAT8_E4M3;
    ValueE4M3();
    assert Pow(2, 7) == 128 by { SmallPowers(); }
    forall code: nat | SignFree(f, code) && MicroFloat(f, code).Finite? ensures code <= 0x7E { FiniteCodes(f, code); }
    LastFiniteIsLargest(f, 0x7E, 448.0);
  }

  lemma ValueE5M2()
    ensures MicroFloat(FLOAT8_E5M2, 0x7B) == Finite(57344.0)
  {
    var f := FLOAT8_E5M2;
    SmallPowers();
    assert ExponentOf(f, 0x7B) == 30 && MantissaOf(f, 0x7B) == 3 && !Negative(f, 0x7B);
    assert Fraction(f, 3) == 0.75 by { assert Scale(3.0, -2) == 0.75; }
    assert Scale(1.75, 15) == 57344.0 by { assert Scale(448.0, 7) == 57344.0; }
  }

  lemma LargestFiniteE5M2()
    ensures LargestFinite(FLOAT8_E5M2, 0x7B, 57344.0)
  {
    var f := FLOAT8_E5M2;
    ValueE5M2();
    assert Pow(2, 7) == 128 && Pow(2, 2) == 4 by { SmallPowers(); }
    forall code: nat | SignFree(f, code) && MicroFloat(f, code).Finite? ensures code <= 0x7B { FiniteCodes(f, code); }
    LastFiniteIsLargest(f, 0x7B, 57344.0);
  }

  /** A format without special values: its last sign-free code is the largest. */
  lemma AllFinite(f: Format, top: nat, v: real)
    requires !f.hasInf && !f.nanAtMax && top + 1 == Pow(2, f.expBits + f.manBits) && MicroFloat(f, top) == Finite(v)
    ensures LargestFinite(f, top, v)
  {
    LastFiniteIsLargest(f, top, v);
  }

  lemma LargestFiniteSubByte()
    ensures LargestFinite(FLOAT6_E2M3, 0x1F, 7.5)
    ensures LargestFinite(FLOAT6_E3M2, 0x1F, 28.0)
    ensures LargestFinite(FLOAT4_E2M1, 0x07, 6.0)
  {
    assert Pow(2, 5) == 32 && Pow(2, 3) == 8 by { SmallPowers(); }
    assert MicroFloat(FLOAT6_E2M3, 0x1F) == Finite(7.5) by { assert Scale(7.0, -3) == 0.875 && Scale(1.875, 2) == 7.5; }
    assert MicroFloat(FLOAT6_E3M2, 0x1F) == Finite(28.0) by { assert Scale(3.0, -2) == 0.75 && Scale(1.75, 4) == 28.0; }
    assert MicroFloat(FLOAT4_E2M1, 0x07) == Finite(6.0) by { assert Scale(1.0, -1) == 0.5 && Scale(1.5, 2) == 6.0; }
    AllFinite(FLOAT6_E2M3, 0x1F, 7.5);
    AllFinite(FLOAT6_E3M2, 0x1F, 28.0);
    AllFinite(FLOAT4_E2M1, 0x07, 6.0);
  }
}
