/** The value an element is shown with: the number its bits stand for in the buffer. */
module Scalars {
  import opened Shapes
  import opened Packing
  import opened Decoding
  import opened Display

  /** A shown value. Wide floating-point and complex elements keep their bits: turning those into
      numbers is left to the host. */
  datatype Scalar = Absent | Truth(holds: bool) | Number(n: int) | Real(x: Float) | Encoded(bits: nat)

  /** A power-of-two scale; the first and the last code are reserved. */
  function ScaleValue(code: nat): Float {
    if code == 0 || code == 0xFF then NotANumber else Finite(Scale(1.0, code - 127))
  }

  /** The value of a packed code: signed codes are extended by two shifts. */
  function OfCode(et: ElementType, code: nat): Scalar {
    match et
    case Bool => Truth(code == 1)
    case Int2 => Number(SignExtend(code, 2))
    case Int4 => Number(SignExtend(code, 4))
    case Float4E2M1 => Real(MicroFloat(FLOAT4_E2M1, code))
    case Float6E2M3 => Real(MicroFloat(FLOAT6_E2M3, code))
    case Float6E3M2 => Real(MicroFloat(FLOAT6_E3M2, code))
    case _ => Number(code)
  }

  /** The value of whole bytes, least significant first. */
  function OfBytes(et: ElementType, bytes: seq<bv8>): Scalar {
    var bits := LittleEndian(bytes);
    match et
    case Int8 => Number(TwosComplement(bits, 8))
    case Int16 => Number(TwosComplement(bits, 16))
    case Int32 => Number(TwosComplement(bits, 32))
    case Int64 => Number(TwosComplement(bits, 64))
    case Uint8 | Uint16 | Uint32 | Uint64 => Number(bits)
    case Float8E4M3 => Real(MicroFloat(FLOAT8_E4M3, bits))
    case Float8E5M2 => Real(MicroFloat(FLOAT8_E5M2, bits))
    case Float8E8M0 => Real(ScaleValue(bits))
    case _ => Encoded(bits)
  }

  function ScalarAt(et: ElementType, data: seq<bv8>, idx: nat): Scalar {
    match FormatScalar(et, data, idx)
    case Question => Absent
    case Code(code) => OfCode(et, code as nat)
    case Raw(bytes) => OfBytes(et, bytes)
  }

  /** The format of a micro-float type. */
  function FormatOf(et: ElementType): Option<Format> {
    match et
    case Float4E2M1 => Some(FLOAT4_E2M1)
    case Float6E2M3 => Some(FLOAT6_E2M3)
    case Float6E3M2 => Some(FLOAT6_E3M2)
    case Float8E4M3 => Some(FLOAT8_E4M3)
    case Float8E5M2 => Some(FLOAT8_E5M2)
    case _ => None
  }

  /** What an element type makes of a number of its width. */
  ghost function Meaning(et: ElementType, digit: nat): Scalar {
    match et
    case Bool => Truth(digit == 1)
    case Int2 | Int4 | Int8 | Int16 | Int32 | Int64 => Number(TwosComplement(digit, BitWidth(et)))
    case Uint2 | Uint4 | Uint8 | Uint16 | Uint32 | Uint64 => Number(digit)
    case Float4E2M1 | Float6E2M3 | Float6E3M2 | Float8E4M3 | Float8E5M2 => Real(MicroFloat(FormatOf(et).value, digit))
    case Float8E8M0 => Real(ScaleValue(digit))
    case _ => Encoded(digit)
  }

  /** The scale type is the powers of two from `2^-126` to `2^127`: code 127 is one, and each code
      shows twice the value of the code before it. */
  lemma ScalesDouble(code: nat)
    ensures ScaleValue(127) == Finite(1.0)
    ensures code < 0x100 ==> (ScaleValue(code).Finite? <==> 1 <= code <= 254)
    ensures 2 <= code <= 254 ==> ScaleValue(code) == Finite(2.0 * ScaleValue(code - 1).value)
  {
    if 2 <= code <= 254 {
      ScaleDouble(1.0, code - 128);
      ScaleTwice(1.0, 1, code - 128);
      ScaleTwice(1.0, code - 128, 1);
    }
  }

  // ---- what numbers an integer type has ----

  predicate Signed(et: ElementType) {
    et.Int2? || et.Int4? || et.Int8? || et.Int16? || et.Int32? || et.Int64?
  }

  predicate Unsigned(et: ElementType) {
    et.Uint2? || et.Uint4? || et.Uint8? || et.Uint16? || et.Uint32? || et.Uint64?
  }

  /** The largest number of an integer type. */
  function Largest(et: ElementType): int
    requires Signed(et) || Unsigned(et)
  {
    match et
    case Int2 => 1
    case Uint2 => 3
    case Int4 => 7
    case Uint4 => 15
    case Int8 => 127
    case Uint8 => 255
    case Int16 => 0x7FFF
    case Uint16 => 0xFFFF
    case Int32 => 0x7FFF_FFFF
    case Uint32 => 0xFFFF_FFFF
    case Int64 => 0x7FFF_FFFF_FFFF_FFFF
    case Uint64 => 0xFFFF_FFFF_FFFF_FFFF
  }

  ghost predicate Reaches(et: ElementType, n: int) {
    exists digit: nat :: digit < Pow(2, BitWidth(et)) && Meaning(et, digit) == Number(n)
  }

  lemma TwosComplementRange(n: int, bits: nat)
    requires bits >= 1
    ensures Pow(2, bits) == 2 * Pow(2, bits - 1)
    ensures (exists digit: nat :: digit < Pow(2, bits) && TwosComplement(digit, bits) == n) <==>
            -(Pow(2, bits - 1) as int) <= n < Pow(2, bits - 1)
  {
    PowPositive(2, bits - 1);
    var all, half := Pow(2, bits), Pow(2, bits - 1);
    forall digit: nat | digit < all
      ensures TwosComplement(digit, bits) == if digit < half then digit else digit - all
    {
      SmallMod(digit, all);
    }
    if -half <= n < half {
      var digit: nat := if n >= 0 then n else n + all;
      assert TwosComplement(digit, bits) == n;
    }
  }

  lemma IntegerPowers()
    ensures Pow(2, 1) == 2 && Pow(2, 2) == 4 && Pow(2, 3) == 8 && Pow(2, 4) == 16 && Pow(2, 7) == 128 && Pow(2, 8) == 256
    ensures Pow(2, 15) == 0x8000 && Pow(2, 16) == 0x1_0000 && Pow(2, 31) == 0x8000_0000 && Pow(2, 32) == 0x1_0000_0000
    ensures Pow(2, 63) == 0x8000_0000_0000_0000 && Pow(2, 64) == 0x1_0000_0000_0000_0000
  {
    hide Pow;
    SmallPowers();
    Pow64();
    PowAdd(2, 7, 8);
    PowAdd(2, 8, 8);
    PowAdd(2, 15, 16);
    PowAdd(2, 16, 16);
  }

  lemma LargestPower(et: ElementType)
    requires Signed(et) || Unsigned(et)
    ensures BitWidth(et) >= 1
    ensures Largest(et) + 1 == Pow(2, if Signed(et) then BitWidth(et) - 1 else BitWidth(et))
  {
    hide Pow;
    IntegerPowers();
  }

  /** An integer type shows exactly the numbers of its range. */
  lemma IntegerRange(et: ElementType, n: int)
    requires Signed(et) || Unsigned(et)
    ensures Reaches(et, n) <==> (if Signed(et) then -Largest(et) - 1 else 0) <= n <= Largest(et)
  {
    hide Pow;
    LargestPower(et);
    if Signed(et) {
      TwosComplementRange(n, BitWidth(et));
      assert forall digit: nat :: Meaning(et, digit) == Number(TwosComplement(digit, BitWidth(et)));
    } else {
      assert forall digit: nat :: Meaning(et, digit) == Number(digit);
      if 0 <= n <= Largest(et) { assert Meaning(et, n) == Number(n); }
    }
  }

  /** A micro-float has a sign bit, its exponent and its mantissa. */
  lemma FloatWidths()
    ensures forall et, f :: FormatOf(et) == Some(f) ==> BitWidth(et) == 1 + f.expBits + f.manBits
  {
  }

  // ---- whole bytes are digits too ----

  lemma {:induction false} BytesBound(data: seq<bv8>)
    ensures LittleEndian(data) < Pow(256, |data|)
  {
    if data != [] { BytesBound(data[1..]); }
  }

  lemma {:induction false} SplitBytes(data: seq<bv8>, n: nat)
    requires n <= |data|
    ensures LittleEndian(data) == LittleEndian(data[..n]) + Pow(256, n) * LittleEndian(data[n..])
  {
    if n == 0 {
      assert data[0..] == data;
    } else {
      SplitBytes(data[1..], n - 1);
      assert data[1..][..n - 1] == data[..n][1..] && data[1..][n - 1..] == data[n..];
      OneByteMore(data[0] as nat, LittleEndian(data[..n][1..]), Pow(256, n - 1), LittleEndian(data[n..]));
    }
  }

  lemma OneByteMore(byte: nat, low: nat, p: nat, high: nat)
    ensures byte + 256 * (low + p * high) == (byte + 256 * low) + (256 * p) * high
  {
    MulAssoc(256, p, high);
  }

  /** The low bytes of a buffer are the remainder of its number. */
  lemma LowBytes(data: seq<bv8>, n: nat)
    requires n <= |data|
    ensures Pow(256, n) > 0 && LittleEndian(data) % Pow(256, n) == LittleEndian(data[..n])
  {
    PowPositive(256, n);
    SplitBytes(data, n);
    BytesBound(data[..n]);
    ModShift(LittleEndian(data[..n]), Pow(256, n), LittleEndian(data[n..]));
    SmallMod(LittleEndian(data[..n]), Pow(256, n));
  }

  lemma PowOne(b: nat)
    ensures Pow(b, 1) == b
  {
    assert Pow(b, 1) == b * Pow(b, 0);
  }

  lemma FirstDigit(v: nat, base: nat)
    requires base > 0
    ensures Digit(v, base, 0) == v % base
  {
  }

  /** Element `idx` of `n` bytes each is digit `idx` of the buffer in base `256^n`. */
  lemma BytesAreDigit(data: seq<bv8>, idx: nat, n: nat, k: nat)
    requires k == n * idx && k + n <= |data|
    ensures Pow(256, n) > 0 && Digit(LittleEndian(data), Pow(256, n), idx) == LittleEndian(data[k..k + n])
  {
    hide Digit, LittleEndian, Pow;
    var base := Pow(256, n);
    PowPositive(256, n);
    PowOne(base);
    DigitAfterBytes(data, base, 1, n, idx, 0, k);
    FirstDigit(LittleEndian(data[k..]), base);
    LowBytes(data[k..], n);
    assert data[k..][..n] == data[k..k + n];
  }

  // ---- every element shows the digit of the buffer at its index ----

  lemma CodeMeans(et: ElementType, code: nat)
    requires 0 < BitWidth(et) < 8
    ensures OfCode(et, code) == Meaning(et, code)
  {
    if et.Int2? { SignExtendIsTwosComplement(code, 2); }
    if et.Int4? { SignExtendIsTwosComplement(code, 4); }
  }

  lemma BytesMean(et: ElementType, bytes: seq<bv8>)
    requires BitWidth(et) >= 8
    ensures OfBytes(et, bytes) == Meaning(et, LittleEndian(bytes))
  {
  }

  /** A whole-byte element is shown from its own bytes. */
  lemma WholeShown(et: ElementType, data: seq<bv8>, count: nat, idx: nat, n: nat)
    requires n >= 1 && BitWidth(et) == 8 * n && |data| == count * n && idx < count
    ensures n * idx + n <= |data| && FormatScalar(et, data, idx) == Raw(data[n * idx..n * idx + n])
  {
    BlockInside(idx, count, n);
  }

  lemma WidthPower(bits: nat, n: nat)
    requires bits == 8 * n
    ensures Pow(2, bits) == Pow(256, n)
  {
    hide Pow;
    assert Pow(2, 8) == 256 by { SmallPowers(); }
    PowMul(2, 8, n);
  }

  lemma WholeMeans(et: ElementType, data: seq<bv8>, count: nat, idx: nat)
    requires BitWidth(et) >= 8 && |data| == BufferSize(et, count) && idx < count
    ensures Pow(2, BitWidth(et)) > 0
    ensures ScalarAt(et, data, idx) == Meaning(et, Digit(LittleEndian(data), Pow(2, BitWidth(et)), idx))
  {
    hide Digit, LittleEndian, Pow, OfBytes, Meaning, FormatScalar;
    var n := BitWidth(et) / 8;
    assert BitWidth(et) == 8 * n;
    WholeShown(et, data, count, idx, n);
    WidthPower(BitWidth(et), n);
    BytesAreDigit(data, idx, n, n * idx);
    BytesMean(et, data[n * idx..n * idx + n]);
  }

  lemma PackedMeans(et: ElementType, data: seq<bv8>, count: nat, idx: nat)
    requires 0 < BitWidth(et) < 8 && |data| == BufferSize(et, count) && idx < count
    ensures Pow(2, BitWidth(et)) > 0
    ensures ScalarAt(et, data, idx) == Meaning(et, Digit(LittleEndian(data), Pow(2, BitWidth(et)), idx))
  {
    hide Digit, LittleEndian, Pow, OfCode, Meaning, ReadPow2Code, ReadF6Code, BufferSize;
    var bits := BitWidth(et);
    PowPositive(2, bits);
    EveryElementThere(et, data, count, idx);
    if bits == 6 {
      assert Pow(2, 6) == 64 by { SmallPowers(); }
      F6CodeIsDigit(data, idx);
    } else {
      Pow2CodeIsDigit(data, idx, bits);
    }
    CodeMeans(et, FormatScalar(et, data, idx).code as nat);
  }

  /** In a buffer of the computed size, element `idx` of any built-in type is shown as what the type
      makes of digit `idx` of the buffer, read as one number in base two to the element's width. */
  lemma ScalarIsDigit(et: ElementType, data: seq<bv8>, count: nat, idx: nat)
    requires !et.Extension? && |data| == BufferSize(et, count) && idx < count
    ensures Pow(2, BitWidth(et)) > 0
    ensures ScalarAt(et, data, idx) == Meaning(et, Digit(LittleEndian(data), Pow(2, BitWidth(et)), idx))
  {
    if BitWidth(et) >= 8 {
      WholeMeans(et, data, count, idx);
    } else {
      PackedMeans(et, data, count, idx);
    }
  }
}
