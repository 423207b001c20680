/** Reading packed sub-byte elements out of a byte buffer. */
module Packing {
  import opened Shapes

  /** Powers of a natural number. */
  function Pow(b: nat, e: nat): nat {
    if e == 0 then 1 else b * Pow(b, e - 1)
  }

  // ---- the readers ----

  /** `b >> s` for an amount that is not a literal. */
  function Shr(b: bv8, s: nat): bv8
    requires s < 8
  {
    if s == 0 then b else if s == 1 then b >> 1 else if s == 2 then b >> 2 else if s == 3 then b >> 3
    else if s == 4 then b >> 4 else if s == 5 then b >> 5 else if s == 6 then b >> 6 else b >> 7
  }

  /** `(1 << bits) - 1`. */
  function LowMask(bits: nat): bv8
    requires bits == 1 || bits == 2 || bits == 4
  {
    if bits == 1 then 0x01 else if bits == 2 then 0x03 else 0x0F
  }

  /** The code of `bits` bits at position `r` of a byte, least significant bits first. */
  function ByteCode(b: bv8, r: nat, bits: nat): bv8
    requires bits == 1 || bits == 2 || bits == 4
    requires r < 8 / bits
  {
    Shr(b, r * bits) & LowMask(bits)
  }

  /** The code of `bits` bits (1, 2 or 4) at element `idx`. */
  function ReadPow2Code(data: seq<bv8>, idx: nat, bits: nat): Option<bv8>
    requires bits == 1 || bits == 2 || bits == 4
  {
    var perByte := 8 / bits;
    if idx / perByte < |data| then Some(ByteCode(data[idx / perByte], idx % perByte, bits)) else None
  }

  /** A byte, or zero past the end. */
  function ByteOrZero(data: seq<bv8>, i: nat): bv8 {
    if i < |data| then data[i] else 0
  }

  /** The code at position `r` of a group of three bytes that holds four codes. */
  function GroupCode(b0: bv8, b1: bv8, b2: bv8, r: nat): bv8 {
    if r == 0 then b0 & 0x3F
    else if r == 1 then (b0 >> 6) | ((b1 & 0x0F) << 2)
    else if r == 2 then (b1 >> 4) | ((b2 & 0x03) << 4)
    else b2 >> 2
  }

  /** The 6-bit code at element `idx`, four elements in three bytes. */
  function ReadF6Code(data: seq<bv8>, idx: nat): Option<bv8> {
    var g := idx / 4 * 3;
    if g >= |data| then None
    else Some(GroupCode(data[g], ByteOrZero(data, g + 1), ByteOrZero(data, g + 2), idx % 4))
  }

  // ---- what they should read ----

  /** The buffer as one little-endian number. */
  function LittleEndian(data: seq<bv8>): nat {
    if data == [] then 0 else data[0] as nat + 256 * LittleEndian(data[1..])
  }

  /** Digit `idx` of `n` in a base. */
  ghost function Digit(n: nat, base: nat, idx: nat): nat
    requires base > 0
  {
    PowPositive(base, idx);
    n / Pow(base, idx) % base
  }

  // ---- powers ----

  lemma {:induction false} PowPositive(b: nat, e: nat)
    requires b > 0
    ensures Pow(b, e) > 0
  {
    if e > 0 {
      PowPositive(b, e - 1);
      MulPositive(b, Pow(b, e - 1));
    }
  }

  lemma MulPositive(x: nat, y: nat)
    requires x > 0 && y > 0
    ensures x * y > 0
  {
  }

  lemma {:induction false} PowAdd(b: nat, d: nat, e: nat)
    ensures Pow(b, d + e) == Pow(b, d) * Pow(b, e)
  {
    if d > 0 {
      PowAdd(b, d - 1, e);
      MulAssoc(b, Pow(b, d - 1), Pow(b, e));
    }
  }

  lemma {:induction false} PowMul(b: nat, k: nat, q: nat)
    ensures Pow(b, k * q) == Pow(Pow(b, k), q)
  {
    if q > 0 {
      PowMul(b, k, q - 1);
      assert k * q == k + k * (q - 1);
      PowAdd(b, k, k * (q - 1));
    }
  }

  // ---- bits and numbers ----

  lemma ShiftOne(b: bv8)
    ensures (b >> 1) as nat == b as nat / 2
  {
  }

  lemma ShiftTwo(b: bv8)
    ensures (b >> 2) as nat == b as nat / 4
  {
  }

  lemma ShiftThree(b: bv8)
    ensures (b >> 3) as nat == b as nat / 8
  {
  }

  lemma ShiftMore(b: bv8)
    ensures (b >> 4) as nat == b as nat / 16
    ensures (b >> 5) as nat == b as nat / 32
    ensures (b >> 6) as nat == b as nat / 64
    ensures (b >> 7) as nat == b as nat / 128
  {
  }

  lemma MaskOne(b: bv8)
    ensures (b & 1) as nat == b as nat % 2
  {
  }

  lemma MaskPair(b: bv8)
    ensures (b & 3) as nat == b as nat % 4
  {
  }

  lemma MaskNibble(b: bv8)
    ensures (b & 15) as nat == b as nat % 16
  {
  }

  lemma MaskSix(b: bv8)
    ensures (b & 63) as nat == b as nat % 64
  {
  }

  lemma JoinLow(x: bv8, y: bv8)
    ensures x < 4 && y < 16 ==> (x | (y << 2)) as nat == x as nat + 4 * y as nat
    ensures x < 16 && y < 4 ==> (x | (y << 4)) as nat == x as nat + 16 * y as nat
  {
  }

  // ---- division ----

  lemma DivUnique(n: nat, d: nat, q: nat, r: nat)
    requires d > 0 && n == d * q + r && r < d
    ensures n / d == q
  {
    var p, s := n / d, n % d;
    assert n == d * p + s;
    assert d * (p + 1) == d * p + d && d * (q + 1) == d * q + d;
    if p < q { MulMonotone(d, d, p + 1, q); }
    if q < p { MulMonotone(d, d, q + 1, p); }
  }

  lemma DivDiv(n: nat, a: nat, b: nat)
    requires a > 0 && b > 0
    ensures a * b > 0 && n / (a * b) == n / a / b
  {
    var q, r := n / a, n % a;
    var p, s := q / b, q % b;
    assert n == a * q + r && q == b * p + s;
    MulPositive(a, b);
    assert a * q == a * b * p + a * s by {
      MulAssoc(a, b, p);
      assert a * (b * p + s) == a * (b * p) + a * s;
    }
    MulMonotone(a, a, s + 1, b);
    assert a * (s + 1) == a * s + a;
    DivUnique(n, a * b, p, a * s + r);
  }

  lemma QuotientBelow(n: nat, base: nat, p: nat)
    requires base > 0 && n < base * p
    ensures n / base < p
  {
    assert n == base * (n / base) + n % base;
    if n / base >= p { MulMonotone(base, base, p, n / base); }
  }

  // ---- the buffer as a number ----

  /** Dividing by a power of 256 drops bytes. */
  lemma {:induction false} DropBytes(data: seq<bv8>, k: nat)
    requires k <= |data|
    ensures Pow(256, k) > 0 && LittleEndian(data) / Pow(256, k) == LittleEndian(data[k..])
  {
    PowPositive(256, k);
    if k == 0 {
      assert data[0..] == data;
    } else {
      DropBytes(data[1..], k - 1);
      assert data[1..][k - 1..] == data[k..];
      DivUnique(LittleEndian(data), 256, LittleEndian(data[1..]), data[0] as nat);
      DivDiv(LittleEndian(data), 256, Pow(256, k - 1));
    }
  }

  lemma PowSplit(base: nat, perGroup: nat, bytes: nat, q: nat, r: nat)
    requires Pow(base, perGroup) == Pow(256, bytes)
    ensures Pow(base, perGroup * q + r) == Pow(256, bytes * q) * Pow(base, r)
  {
    PowAdd(base, perGroup * q, r);
    PowMul(base, perGroup, q);
    PowMul(256, bytes, q);
  }

  /** A digit past a whole number of bytes is a digit of what those bytes precede. */
  lemma DigitAfterBytes(data: seq<bv8>, base: nat, perGroup: nat, bytes: nat, q: nat, r: nat, k: nat)
    requires base > 0 && Pow(base, perGroup) == Pow(256, bytes)
    requires k == bytes * q && k <= |data|
    ensures Digit(LittleEndian(data), base, perGroup * q + r) == Digit(LittleEndian(data[k..]), base, r)
  {
    PowSplit(base, perGroup, bytes, q, r);
    PowPositive(base, r);
    DropBytes(data, k);
    DivDiv(LittleEndian(data), Pow(256, k), Pow(base, r));
  }

  lemma DivShift(v: nat, d: nat, k: nat)
    requires d > 0
    ensures (v + d * k) / d == v / d + k
  {
    assert v == d * (v / d) + v % d;
    assert d * (v / d + k) == d * (v / d) + d * k;
    DivUnique(v + d * k, d, v / d + k, v % d);
  }

  lemma ModShift(v: nat, d: nat, k: nat)
    requires d > 0
    ensures (v + d * k) % d == v % d
  {
    DivShift(v, d, k);
    assert d * (v / d + k) == d * (v / d) + d * k;
  }

  /** Adding a multiple of `d * base` does not change the digit above `d`. */
  lemma LowDigit(v: nat, d: nat, base: nat, k: nat)
    requires d > 0 && base > 0
    ensures (v + d * (base * k)) / d % base == v / d % base
  {
    DivShift(v, d, base * k);
    ModShift(v / d, base, k);
  }

  lemma SmallPowers()
    ensures Pow(2, 0) == 1 && Pow(2, 1) == 2 && Pow(2, 2) == 4 && Pow(2, 3) == 8
    ensures Pow(2, 4) == 16 && Pow(2, 5) == 32 && Pow(2, 6) == 64 && Pow(2, 7) == 128 && Pow(2, 8) == 256
    ensures Pow(4, 0) == 1 && Pow(4, 1) == 4 && Pow(4, 2) == 16 && Pow(4, 3) == 64 && Pow(4, 4) == 256
    ensures Pow(16, 0) == 1 && Pow(16, 1) == 16 && Pow(16, 2) == 256
    ensures Pow(64, 0) == 1 && Pow(64, 1) == 64 && Pow(64, 2) == 4096 && Pow(64, 3) == 262144 && Pow(64, 4) == 16777216
    ensures Pow(256, 1) == 256 && Pow(256, 3) == 16777216
  {
    assert Pow(2, 3) == 8 && Pow(2, 6) == 64;
    assert Pow(256, 2) == 65536;
  }

  lemma Pow64()
    ensures Pow(2, 64) == U64_LIMIT && Pow(2, 63) == U64_LIMIT / 2
  {
    SmallPowers();
    PowAdd(2, 8, 8);
    PowAdd(2, 16, 16);
    PowAdd(2, 32, 32);
    assert Pow(2, 64) == 2 * Pow(2, 63);
  }

  lemma ShiftBy(b: bv8, s: nat)
    requires s < 8
    ensures Pow(2, s) > 0 && Shr(b, s) as nat == b as nat / Pow(2, s)
  {
    SmallPowers();
    if s == 1 { ShiftOne(b); }
    else if s == 2 { ShiftTwo(b); }
    else if s == 3 { ShiftThree(b); }
    else { ShiftMore(b); }
  }

  // ---- what the readers return ----

  lemma CodeExists(idx: nat, bits: nat, n: nat)
    requires bits == 1 || bits == 2 || bits == 4
    ensures idx / (8 / bits) < n <==> idx * bits < 8 * n
  {
  }

  /** Where a code sits in its byte: `d` is the weight of its lowest bit, and `m` codes of
      this size fit above it. */
  lemma Position(bits: nat, r: nat) returns (d: nat, m: nat)
    requires bits == 1 || bits == 2 || bits == 4
    requires r < 8 / bits
    ensures d > 0 && d == Pow(Pow(2, bits), r) == Pow(2, r * bits)
    ensures d * (Pow(2, bits) * m) == 256
  {
    PowMul(2, bits, r);
    d := Pow(2, r * bits);
    m := Pow(2, 8 - r * bits - bits);
    SmallPowers();
  }

  lemma SplitIndex(p: nat, q: nat, r: nat, n: nat)
    requires r < p && q < n
    ensures (p * q + r) / p == q && (p * q + r) % p == r && p * q + r < p * n
  {
    MulMonotone(p, p, q + 1, n);
    assert p * (q + 1) == p * q + p;
    DivUnique(p * q + r, p, q, r);
  }

  lemma CodeAt(data: seq<bv8>, q: nat, r: nat, bits: nat)
    requires bits == 1 || bits == 2 || bits == 4
    requires q < |data| && r < 8 / bits
    ensures 8 / bits * q + r < 8 / bits * |data|
    ensures ReadPow2Code(data, 8 / bits * q + r, bits) == Some(ByteCode(data[q], r, bits))
  {
    SplitIndex(8 / bits, q, r, |data|);
  }

  lemma CodeValue(data: seq<bv8>, q: nat, r: nat, bits: nat)
    requires bits == 1 || bits == 2 || bits == 4
    requires q < |data| && r < 8 / bits
    ensures Pow(2, bits) > 0
    ensures ByteCode(data[q], r, bits) as nat == Digit(LittleEndian(data), Pow(2, bits), 8 / bits * q + r)
  {
    BitsOfByte(data[q], r, bits);
    DigitInByte(data, q, r, bits);
  }

  lemma CodeIsDigit(data: seq<bv8>, idx: nat, bits: nat)
    requires bits == 1 || bits == 2 || bits == 4
    requires idx / (8 / bits) < |data|
    ensures Pow(2, bits) > 0
    ensures ByteCode(data[idx / (8 / bits)], idx % (8 / bits), bits) as nat == Digit(LittleEndian(data), Pow(2, bits), idx)
  {
    DivParts(idx, 8 / bits);
    CodeValue(data, idx / (8 / bits), idx % (8 / bits), bits);
  }

  lemma DivParts(n: nat, d: nat)
    requires d > 0
    ensures n == d * (n / d) + n % d && 0 <= n / d && 0 <= n % d < d
  {
  }

  /** Every power-of-two reader returns digit `idx` of the buffer in base `2^bits`, and has no
      answer exactly past the end. */
  lemma Pow2CodeIsDigit(data: seq<bv8>, idx: nat, bits: nat)
    requires bits == 1 || bits == 2 || bits == 4
    ensures ReadPow2Code(data, idx, bits).Some? <==> idx * bits < 8 * |data|
    ensures ReadPow2Code(data, idx, bits).Some? ==>
              Pow(2, bits) > 0 && ReadPow2Code(data, idx, bits).value as nat == Digit(LittleEndian(data), Pow(2, bits), idx)
  {
    CodeExists(idx, bits, |data|);
    if idx / (8 / bits) < |data| {
      CodeIsDigit(data, idx, bits);
    }
  }

  /** The digits of the buffer, byte by byte. */
  lemma DigitInByte(data: seq<bv8>, q: nat, r: nat, bits: nat)
    requires bits == 1 || bits == 2 || bits == 4
    requires q < |data| && r < 8 / bits
    ensures Pow(2, bits) > 0
    ensures Digit(LittleEndian(data), Pow(2, bits), 8 / bits * q + r) == ByteDigit(data[q] as nat, r, bits)
  {
    var d, m := Position(bits, r);
    PowPositive(2, bits);
    WholeByte(bits);
    DigitAfterBytes(data, Pow(2, bits), 8 / bits, 1, q, r, q);
    var rest := LittleEndian(data[q + 1..]);
    assert data[q..][1..] == data[q + 1..];
    assert LittleEndian(data[q..]) == data[q] as nat + 256 * rest;
    DigitOfByte(data[q] as nat, d, Pow(2, bits), m, rest);
  }

  lemma WholeByte(bits: nat)
    requires bits == 1 || bits == 2 || bits == 4
    ensures Pow(Pow(2, bits), 8 / bits) == Pow(256, 1)
  {
    SmallPowers();
  }

  ghost function ByteDigit(v: nat, r: nat, bits: nat): nat {
    PowPositive(2, r * bits);
    PowPositive(2, bits);
    v / Pow(2, r * bits) % Pow(2, bits)
  }

  /** Shifting and masking a byte takes one digit of it. */
  lemma BitsOfByte(b: bv8, r: nat, bits: nat)
    requires bits == 1 || bits == 2 || bits == 4
    requires r < 8 / bits
    ensures ByteCode(b, r, bits) as nat == ByteDigit(b as nat, r, bits)
  {
    ShiftBy(b, r * bits);
    MaskBits(Shr(b, r * bits), bits);
  }

  /** A digit inside the lowest byte does not depend on the bytes above it. */
  lemma DigitOfByte(v: nat, d: nat, base: nat, m: nat, rest: nat)
    requires d > 0 && base > 0 && d * (base * m) == 256
    ensures (v + 256 * rest) / d % base == v / d % base
  {
    MulAssoc(base, m, rest);
    MulAssoc(d, base * m, rest);
    LowDigit(v, d, base, m * rest);
  }

  lemma MaskBits(c: bv8, bits: nat)
    requires bits == 1 || bits == 2 || bits == 4
    ensures Pow(2, bits) > 0 && (c & LowMask(bits)) as nat == c as nat % Pow(2, bits)
  {
    SmallPowers();
    if bits == 1 { MaskOne(c); } else if bits == 2 { MaskPair(c); } else { MaskNibble(c); }
  }

  // ---- six-bit codes ----

  /** Codes that straddle two bytes, or end a group. */
  lemma StraddleTwoBits(b: nat, x: nat)
    requires b < 256
    ensures (b + 256 * x) / 64 % 64 == b / 64 + 4 * (x % 16)
  {
    DivShift(b, 64, 4 * x);
    assert 4 * x == 4 * (x % 16) + 64 * (x / 16);
    ModShift(b / 64 + 4 * (x % 16), 64, x / 16);
  }

  lemma StraddleFourBits(b: nat, x: nat)
    requires b < 256
    ensures (b + 256 * x) / 16 % 64 == b / 16 + 16 * (x % 4)
  {
    DivShift(b, 16, 16 * x);
    assert 16 * x == 16 * (x % 4) + 64 * (x / 4);
    ModShift(b / 16 + 16 * (x % 4), 64, x / 4);
  }

  lemma UpperSixBits(b: nat, x: nat)
    requires b < 256
    ensures (b + 256 * x) / 4 % 64 == b / 4
  {
    DivShift(b, 4, 64 * x);
    ModShift(b / 4, 64, x);
  }

  lemma LowerPart(b: nat, x: nat, d: nat)
    requires b < 256 && d > 0
    ensures (b + 256 * x) / (256 * d) == x / d
    ensures 256 % d == 0 ==> (b + 256 * x) % d == b % d
  {
    DivUnique(b + 256 * x, 256, x, b);
    DivDiv(b + 256 * x, 256, d);
    if 256 % d == 0 {
      var k := 256 / d;
      assert 256 == d * k;
      MulAssoc(d, k, x);
      ModShift(b, d, k * x);
    }
  }

  /** The four codes of a three-byte group, whatever follows it. */
  lemma GroupDigits(b0: nat, b1: nat, b2: nat, rest: nat)
    requires b0 < 256 && b1 < 256 && b2 < 256
    ensures var n := b0 + 256 * (b1 + 256 * (b2 + 256 * rest));
            && n / 1 % 64 == b0 % 64
            && n / 64 % 64 == b0 / 64 + 4 * (b1 % 16)
            && n / 4096 % 64 == b1 / 16 + 16 * (b2 % 4)
            && n / 262144 % 64 == b2 / 4
  {
    var y := b2 + 256 * rest;
    var x := b1 + 256 * y;
    LowerPart(b0, x, 64);
    LowerPart(b1, y, 16);
    LowerPart(b2, rest, 4);
    StraddleTwoBits(b0, x);
    LowerPart(b0, x, 16);
    StraddleFourBits(b1, y);
    LowerPart(b0, x, 1024);
    LowerPart(b1, y, 4);
    UpperSixBits(b2, rest);
  }

  /** The bytes of a group as a number, missing bytes counting as zero. */
  lemma GroupAsNumber(data: seq<bv8>) returns (rest: nat)
    requires data != []
    ensures LittleEndian(data) ==
            data[0] as nat + 256 * (ByteOrZero(data, 1) as nat + 256 * (ByteOrZero(data, 2) as nat + 256 * rest))
  {
    if |data| >= 3 {
      rest := LittleEndian(data[3..]);
      assert data[1..][1..] == data[2..] && data[2..][1..] == data[3..];
    } else {
      rest := 0;
      if |data| == 2 {
        assert data[1..][1..] == [];
        assert LittleEndian(data[1..]) == data[1] as nat;
      } else {
        assert data[1..] == [];
      }
    }
  }

  ghost function GroupDigit(b0: nat, b1: nat, b2: nat, r: nat): nat {
    if r == 0 then b0 % 64
    else if r == 1 then b0 / 64 + 4 * (b1 % 16)
    else if r == 2 then b1 / 16 + 16 * (b2 % 4)
    else b2 / 4
  }

  lemma SecondCode(b0: bv8, b1: bv8)
    ensures ((b0 >> 6) | ((b1 & 0x0F) << 2)) as nat == b0 as nat / 64 + 4 * (b1 as nat % 16)
  {
    ShiftMore(b0);
    MaskNibble(b1);
    JoinLow(b0 >> 6, b1 & 0x0F);
  }

  lemma ThirdCode(b1: bv8, b2: bv8)
    ensures ((b1 >> 4) | ((b2 & 0x03) << 4)) as nat == b1 as nat / 16 + 16 * (b2 as nat % 4)
  {
    ShiftMore(b1);
    MaskPair(b2);
    JoinLow(b1 >> 4, b2 & 0x03);
  }

  /** The bit operations of the group reader, in numbers. */
  lemma GroupCodeIsDigit(b0: bv8, b1: bv8, b2: bv8, r: nat)
    requires r < 4
    ensures GroupCode(b0, b1, b2, r) as nat == GroupDigit(b0 as nat, b1 as nat, b2 as nat, r)
  {
    if r == 0 {
      MaskSix(b0);
    } else if r == 1 {
      SecondCode(b0, b1);
    } else if r == 2 {
      ThirdCode(b1, b2);
    } else {
      ShiftTwo(b2);
    }
  }

  /** Digit `r` of the number a group spells, byte by byte. */
  lemma DigitOfGroup(group: seq<bv8>, r: nat)
    requires group != [] && r < 4
    ensures Digit(LittleEndian(group), 64, r)
         == GroupDigit(group[0] as nat, ByteOrZero(group, 1) as nat, ByteOrZero(group, 2) as nat, r)
  {
    SmallPowers();
    var rest := GroupAsNumber(group);
    GroupDigits(group[0] as nat, ByteOrZero(group, 1) as nat, ByteOrZero(group, 2) as nat, rest);
  }

  /** The six-bit reader returns digit `idx` in base 64; it has no answer exactly when the
      group starts past the end, and a cut-off last group reads as if padded with zeros. */
  lemma F6CodeIsDigit(data: seq<bv8>, idx: nat)
    ensures ReadF6Code(data, idx).Some? <==> idx / 4 * 3 < |data|
    ensures ReadF6Code(data, idx).Some? ==> ReadF6Code(data, idx).value as nat == Digit(LittleEndian(data), 64, idx)
  {
    var q, r := idx / 4, idx % 4;
    var g := q * 3;
    if g < |data| {
      WholeGroup();
      DigitAfterBytes(data, 64, 4, 3, q, r, g);
      DigitOfGroup(data[g..], r);
      assert ByteOrZero(data[g..], 1) == ByteOrZero(data, g + 1);
      assert ByteOrZero(data[g..], 2) == ByteOrZero(data, g + 2);
      GroupCodeIsDigit(data[g], ByteOrZero(data, g + 1), ByteOrZero(data, g + 2), r);
    }
  }

  lemma WholeGroup()
    ensures Pow(64, 4) == Pow(256, 3)
  {
    SmallPowers();
  }

  // ---- codes determine buffers ----

  /** A byte is determined by its codes. */
  lemma SameCodesSameByte(x: bv8, y: bv8, bits: nat)
    requires bits == 1 || bits == 2 || bits == 4
    requires forall r: nat :: r < 8 / bits ==> ByteCode(x, r, bits) == ByteCode(y, r, bits)
    ensures x == y
  {
    if bits == 1 {
      assert ByteCode(x, 0, 1) == ByteCode(y, 0, 1) && ByteCode(x, 1, 1) == ByteCode(y, 1, 1);
      assert ByteCode(x, 2, 1) == ByteCode(y, 2, 1) && ByteCode(x, 3, 1) == ByteCode(y, 3, 1);
      assert ByteCode(x, 4, 1) == ByteCode(y, 4, 1) && ByteCode(x, 5, 1) == ByteCode(y, 5, 1);
      assert ByteCode(x, 6, 1) == ByteCode(y, 6, 1) && ByteCode(x, 7, 1) == ByteCode(y, 7, 1);
    } else if bits == 2 {
      assert ByteCode(x, 0, 2) == ByteCode(y, 0, 2) && ByteCode(x, 1, 2) == ByteCode(y, 1, 2);
      assert ByteCode(x, 2, 2) == ByteCode(y, 2, 2) && ByteCode(x, 3, 2) == ByteCode(y, 3, 2);
    } else {
      assert ByteCode(x, 0, 4) == ByteCode(y, 0, 4) && ByteCode(x, 1, 4) == ByteCode(y, 1, 4);
    }
  }

  /** Equally long buffers with the same code at every index are the same buffer. */
  lemma Pow2CodesDetermineBuffer(a: seq<bv8>, b: seq<bv8>, bits: nat)
    requires bits == 1 || bits == 2 || bits == 4
    requires |a| == |b|
    requires forall i: nat :: i < 8 / bits * |a| ==> ReadPow2Code(a, i, bits) == ReadPow2Code(b, i, bits)
    ensures a == b
  {
    forall q | 0 <= q < |a|
      ensures a[q] == b[q]
    {
      forall r: nat | r < 8 / bits
        ensures ByteCode(a[q], r, bits) == ByteCode(b[q], r, bits)
      {
        CodeAt(a, q, r, bits);
        CodeAt(b, q, r, bits);
      }
      SameCodesSameByte(a[q], b[q], bits);
    }
  }

  /** The same for six-bit codes, for buffers made of whole groups. */
  lemma F6CodesDetermineBuffer(a: seq<bv8>, b: seq<bv8>)
    requires |a| == |b| && |a| % 3 == 0
    requires forall i: nat :: i < 4 * (|a| / 3) ==> ReadF6Code(a, i) == ReadF6Code(b, i)
    ensures a == b
  {
    forall k | 0 <= k < |a|
      ensures a[k] == b[k]
    {
      GroupsAgree(a, b, k / 3);
      assert k == 3 * (k / 3) || k == 3 * (k / 3) + 1 || k == 3 * (k / 3) + 2;
    }
  }

  lemma F6CodeAt(data: seq<bv8>, q: nat, r: nat)
    requires 3 * q + 2 < |data| && r < 4
    ensures ReadF6Code(data, 4 * q + r) == Some(GroupCode(data[3 * q], data[3 * q + 1], data[3 * q + 2], r))
  {
  }

  lemma CodeAgrees(a: seq<bv8>, b: seq<bv8>, q: nat, r: nat)
    requires 3 * q + 2 < |a| && 3 * q + 2 < |b| && r < 4
    requires ReadF6Code(a, 4 * q + r) == ReadF6Code(b, 4 * q + r)
    ensures GroupCode(a[3 * q], a[3 * q + 1], a[3 * q + 2], r) == GroupCode(b[3 * q], b[3 * q + 1], b[3 * q + 2], r)
  {
    F6CodeAt(a, q, r);
    F6CodeAt(b, q, r);
  }

  lemma GroupsAgree(a: seq<bv8>, b: seq<bv8>, q: nat)
    requires |a| == |b| && q < |a| / 3
    requires forall i: nat :: i < 4 * (|a| / 3) ==> ReadF6Code(a, i) == ReadF6Code(b, i)
    ensures 3 * q + 2 < |a|
    ensures a[3 * q] == b[3 * q] && a[3 * q + 1] == b[3 * q + 1] && a[3 * q + 2] == b[3 * q + 2]
  {
    CodeAgrees(a, b, q, 0);
    CodeAgrees(a, b, q, 1);
    CodeAgrees(a, b, q, 2);
    CodeAgrees(a, b, q, 3);
    SameCodesSameGroup(a[3 * q], a[3 * q + 1], a[3 * q + 2], b[3 * q], b[3 * q + 1], b[3 * q + 2]);
  }

  lemma SameCodesSameGroup(x0: bv8, x1: bv8, x2: bv8, y0: bv8, y1: bv8, y2: bv8)
    requires GroupCode(x0, x1, x2, 0) == GroupCode(y0, y1, y2, 0) && GroupCode(x0, x1, x2, 1) == GroupCode(y0, y1, y2, 1)
    requires GroupCode(x0, x1, x2, 2) == GroupCode(y0, y1, y2, 2) && GroupCode(x0, x1, x2, 3) == GroupCode(y0, y1, y2, 3)
    ensures x0 == y0 && x1 == y1 && x2 == y2
  {
  }
}
