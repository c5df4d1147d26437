/** Row quantisation of src/dxquant/dxquant.cpp: the truncating binary16 scale, the 8-bit
    and 4-bit blocks, and how far a dequantised value is from its source. */
module Quant {
  import opened Reals

  const BLOCK := 32
  const MIN_NORMAL := 1.0 / 16384.0
  const OVERFLOW := 65536.0

  function Abs(x: real): real {
    if x < 0.0 then -x else x
  }

  // ---------------------------------------------------------------- the binary16 scale

  /** Two to the power e - 25: the weight of the last fraction bit under exponent field e. */
  function Unit(e: int): (u: real)
    ensures u > 0.0
    decreases if e < 0 then -e else e
  {
    if e == 0 then 1.0 / 33554432.0 else if e > 0 then 2.0 * Unit(e - 1) else Unit(e + 1) / 2.0
  }

  /** A binary16 pattern as the program reads it: exponent field 0 is zero, and 31 is just
      one more exponent. */
  function HalfValue(h: nat): real {
    var exp, frac := h / 1024 % 32, h % 1024;
    if exp == 0 then 0.0
    else
      var magnitude := Product((1024 + frac) as real, Unit(exp));
      if h / 0x8000 % 2 == 1 then -magnitude else magnitude
  }

  /** The value of a finite binary32 pattern. */
  function FloatValue(f: nat): real {
    var exp, frac := f / 0x80_0000 % 256, f % 0x80_0000;
    var magnitude :=
      if exp == 0 then Product(frac as real, Unit(-111)) / 8192.0
      else Product((0x80_0000 + frac) as real, Unit(exp - 112)) / 8192.0;
    if f / 0x8000_0000 == 1 then -magnitude else magnitude
  }

  /** The bit fields of the program: the sign moves down by 16, ten fraction bits survive. */
  function FloatToFp16(f: nat): nat {
    var sign := f / 0x8000_0000 * 0x8000;
    var exp := f / 0x80_0000 % 256 - 127 + 15;
    var frac := f / 0x2000 % 1024;
    if exp <= 0 then sign
    else if exp >= 31 then sign + 0x7C00
    else sign + exp * 1024 + frac
  }

  function Fp16ToFloat(h: nat): nat {
    var sign, exp, frac := h / 0x8000 % 2 * 0x8000_0000, h / 1024 % 32, h % 1024 * 0x2000;
    if exp == 0 then 0 else sign + (exp - 15 + 127) * 0x80_0000 + frac
  }

  /** Widening computes the value as the program reads it. */
  lemma WideningExact(h: nat)
    requires h < 0x1_0000
    ensures FloatValue(Fp16ToFloat(h)) == HalfValue(h)
  {
    hide Unit;
    var sign, exp, frac := h / 0x8000 % 2, h / 1024 % 32, h % 1024;
    if exp == 0 {
      assert Product(0.0, Unit(-111)) == 0.0;
    } else {
      var f := Fp16ToFloat(h);
      assert f == sign * 0x8000_0000 + (exp + 112) * 0x80_0000 + frac * 0x2000;
      Fields(f, sign, exp + 112, frac * 0x2000);
      Scale(1024 + frac, Unit(exp));
    }
  }

  lemma Fields(f: nat, sign: nat, exp: nat, frac: nat)
    requires sign < 2 && exp < 256 && frac < 0x80_0000
    requires f == sign * 0x8000_0000 + exp * 0x80_0000 + frac
    ensures f / 0x8000_0000 == sign && f / 0x80_0000 % 256 == exp && f % 0x80_0000 == frac
  {
  }

  lemma Scale(m: nat, u: real)
    ensures Product((m * 8192) as real, u) / 8192.0 == Product(m as real, u)
  {
  }

  /** The value of a finite binary16 pattern by the standard: exponent field 0 holds the
      subnormal multiples of the smallest unit. */
  function StandardValue(h: nat): real {
    var exp, frac := h / 1024 % 32, h % 1024;
    var magnitude := if exp == 0 then Product(frac as real, Unit(1)) else Product((1024 + frac) as real, Unit(exp));
    if h / 0x8000 % 2 == 1 then -magnitude else magnitude
  }

  /** Some patterns and their values: one, minus two, the largest, the smallest normal and the
      smallest subnormal number of binary16, and one in binary32. */
  lemma KnownValues()
    ensures StandardValue(0x3C00) == 1.0 && StandardValue(0xC000) == -2.0 && StandardValue(0x7BFF) == 65504.0
    ensures StandardValue(0x0400) == 1.0 / 16384.0 && StandardValue(0x0001) == 1.0 / 16777216.0
    ensures FloatValue(0x3F80_0000) == 1.0 && FloatValue(0xC000_0000) == -2.0
  {
    hide Unit;
    UnitsAre();
    assert 0xC000 / 1024 % 32 == 16 && 0xC000_0000 / 0x80_0000 % 256 == 128;
  }

  lemma UnitsAre()
    ensures Unit(0) == 1.0 / 33554432.0 && Unit(1) == 2.0 * Unit(0) && Unit(15) == 32768.0 * Unit(0)
    ensures Unit(16) == 65536.0 * Unit(0) && Unit(30) == 1073741824.0 * Unit(0)
  {
    hide Unit;
    UnitFrom(0, 1);
    UnitFrom(0, 15);
    UnitFrom(15, 1);
    UnitFrom(15, 15);
    UnitZero();
    Powers15();
  }

  lemma Powers15()
    ensures Doubled(1) == 2.0 && Doubled(15) == 32768.0
  {
    assert Doubled(5) == 32.0;
    assert Doubled(10) == 1024.0;
  }

  lemma UnitZero()
    ensures Unit(0) == 1.0 / 33554432.0
  {
  }

  function Doubled(k: nat): real {
    if k == 0 then 1.0 else 2.0 * Doubled(k - 1)
  }

  lemma {:induction false} UnitFrom(e: nat, k: nat)
    ensures Unit(e + k) == Doubled(k) * Unit(e)
  {
    if k > 0 {
      UnitFrom(e, k - 1);
      assert Unit(e + k) == 2.0 * Unit(e + k - 1);
    }
  }

  /** Widening keeps the value of a finite pattern exactly when it is not a subnormal, which
      is lost to zero. */
  lemma WideningKeepsIff(h: nat)
    requires h < 0x1_0000 && h / 1024 % 32 < 31
    ensures FloatValue(Fp16ToFloat(h)) == StandardValue(h) <==> h / 1024 % 32 != 0 || h % 1024 == 0
  {
    hide Unit, FloatValue, Fp16ToFloat;
    WideningExact(h);
    ProductSign((h % 1024) as real, Unit(1));
  }

  /** Widening then narrowing gives the pattern back exactly for normal numbers, plus zero
      and the infinities; subnormals, minus zero and NaN payloads are lost. */
  lemma NarrowingUndoesWideningIff(h: nat)
    requires h < 0x1_0000
    ensures FloatToFp16(Fp16ToFloat(h)) == h <==>
      h == 0 || 1 <= h / 1024 % 32 <= 30 || (h / 1024 % 32 == 31 && h % 1024 == 0)
  {
    var sign, exp, frac := h / 0x8000 % 2, h / 1024 % 32, h % 1024;
    assert h == sign * 0x8000 + exp * 1024 + frac;
    if exp != 0 {
      var f := Fp16ToFloat(h);
      Fields(f, sign, exp + 112, frac * 0x2000);
      assert f / 0x2000 == (sign * 256 + exp + 112) * 1024 + frac;
    }
  }

  // ---------------------------------------------------------------- truncation of a real scale

  function ExponentFrom(x: real, e: nat): nat
    requires e >= 1
  {
    if e == 1 || x >= 1024.0 * Unit(e) then e else ExponentFrom(x, e - 1)
  }

  /** The pattern stored for a scale: below the normal range only the sign, above it the
      infinity pattern, otherwise the first ten fraction bits. */
  function Stored(x: real): nat {
    var sign := if x < 0.0 then 0x8000 else 0;
    if Abs(x) < MIN_NORMAL then sign
    else if Abs(x) >= OVERFLOW then sign + 0x7C00
    else
      var e := ExponentFrom(Abs(x), 30);
      var f := (Abs(x) / Unit(e)).Floor - 1024;
      if 0 <= f < 1024 then sign + e * 1024 + f else sign
  }

  lemma {:induction false} UnitMonotone(a: int, b: int)
    requires a <= b
    ensures Unit(a) <= Unit(b)
    decreases b - a
  {
    if a < b {
      UnitMonotone(a, b - 1);
    }
  }

  lemma UnitValues()
    ensures 1024.0 * Unit(1) == MIN_NORMAL && 1024.0 * Unit(31) == OVERFLOW
  {
    assert Unit(0) == 1.0 / 33554432.0;
    assert Unit(5) == 32.0 * Unit(0);
    assert Unit(10) == 32.0 * Unit(5);
    assert Unit(15) == 32.0 * Unit(10);
    assert Unit(20) == 32.0 * Unit(15);
    assert Unit(25) == 32.0 * Unit(20);
    assert Unit(30) == 32.0 * Unit(25);
    assert Unit(31) == 2.0 * Unit(30);
  }

  lemma {:induction false} ExponentBrackets(x: real, e: nat)
    requires 1 <= e && 1024.0 * Unit(1) <= x < 2048.0 * Unit(e)
    ensures 1 <= ExponentFrom(x, e) <= e
    ensures 1024.0 * Unit(ExponentFrom(x, e)) <= x < 2048.0 * Unit(ExponentFrom(x, e))
  {
    if e > 1 && x < 1024.0 * Unit(e) {
      ExponentBrackets(x, e - 1);
    }
  }

  lemma DividedBounds(x: real, u: real, lo: real, hi: real)
    requires u > 0.0 && lo * u <= x < hi * u
    ensures lo <= x / u < hi && Product(x / u, u) == x
  {
  }

  ghost predicate Normal(x: real) {
    MIN_NORMAL <= Abs(x) < OVERFLOW
  }

  lemma FractionInRange(x: real) returns (e: nat, f: nat)
    requires Normal(x)
    ensures 1 <= e <= 30 && f < 1024 && Stored(x) == (if x < 0.0 then 0x8000 else 0) + e * 1024 + f
    ensures Product((1024 + f) as real, Unit(e)) <= Abs(x) < Product((1024 + f) as real, Unit(e)) + Unit(e)
    ensures 1024.0 * Unit(e) <= Abs(x)
  {
    hide Unit;
    UnitValues();
    assert Unit(31) == 2.0 * Unit(30) by { UnitDouble(30); }
    ExponentBrackets(Abs(x), 30);
    e := ExponentFrom(Abs(x), 30);
    var u, y := Unit(e), Abs(x) / Unit(e);
    DividedBounds(Abs(x), u, 1024.0, 2048.0);
    f := y.Floor - 1024;
    FloorTimes(y, u);
  }

  lemma UnitDouble(e: nat)
    ensures Unit(e + 1) == 2.0 * Unit(e)
  {
  }

  lemma FloorTimes(y: real, u: real)
    requires u > 0.0
    ensures Product(y.Floor as real, u) <= Product(y, u) < Product(y.Floor as real, u) + u
  {
    var whole := y.Floor as real;
    ProductSign(y - whole, u);
    ProductSign(1.0 - (y - whole), u);
    assert Product(y - whole, u) == Product(y, u) - Product(whole, u);
    assert Product(1.0 - (y - whole), u) == u - Product(y - whole, u);
  }

  /** Over the normal range the stored scale keeps the sign, never grows, and loses less
      than one part in 1024. */
  lemma TruncationError(x: real)
    requires Normal(x)
    ensures x < 0.0 ==> x <= HalfValue(Stored(x)) < 0.0
    ensures x > 0.0 ==> 0.0 < HalfValue(Stored(x)) <= x
    ensures Abs(x - HalfValue(Stored(x))) * 1024.0 < Abs(x)
  {
    hide Unit;
    var e, f := FractionInRange(x);
    HalfFields(Stored(x), if x < 0.0 then 1 else 0, e, f);
    ProductSign((1024 + f) as real, Unit(e));
  }

  lemma HalfFields(h: nat, sign: nat, exp: nat, frac: nat)
    requires sign < 2 && exp < 32 && frac < 1024 && h == sign * 0x8000 + exp * 1024 + frac
    ensures h / 0x8000 % 2 == sign && h / 1024 % 32 == exp && h % 1024 == frac
  {
  }

  lemma {:induction false} UnitBelow(e: int)
    requires e <= 0
    ensures Unit(e) <= 1.0 / 33554432.0
  {
    UnitMonotone(e, 0);
  }

  /** Every finite pattern but minus zero narrows to what is stored for its value. */
  lemma NarrowingIsStored(f: nat)
    requires f < 0x1_0000_0000 && f / 0x80_0000 % 256 < 255 && f != 0x8000_0000
    ensures FloatToFp16(f) == Stored(FloatValue(f))
  {
    hide Stored, FloatValue;
    var sign, exp, frac := f / 0x8000_0000, f / 0x80_0000 % 256, f % 0x80_0000;
    assert f == sign * 0x8000_0000 + exp * 0x80_0000 + frac;
    if 113 <= exp <= 142 {
      NormalNarrowing(f, sign, exp, frac);
    } else {
      OutsideNarrowing(f, sign, exp, frac);
    }
  }

  lemma OutsideNarrowing(f: nat, sign: nat, exp: nat, frac: nat)
    requires sign < 2 && exp < 256 && frac < 0x80_0000 && !(113 <= exp <= 142)
    requires f == sign * 0x8000_0000 + exp * 0x80_0000 + frac && (sign == 0 || exp != 0 || frac != 0)
    ensures Stored(FloatValue(f)) == sign * 0x8000 + if exp <= 112 then 0 else 0x7C00
  {
    hide Unit, Product, Magnitude, FloatValue, ExponentFrom;
    if exp <= 112 {
      SmallFloat(exp, frac);
    } else {
      LargeFloat(exp, frac);
    }
    FloatSign(sign, exp, frac);
  }

  lemma NormalNarrowing(f: nat, sign: nat, exp: nat, frac: nat)
    requires sign < 2 && 113 <= exp <= 142 && frac < 0x80_0000
    requires f == sign * 0x8000_0000 + exp * 0x80_0000 + frac
    ensures FloatToFp16(f) == Stored(FloatValue(f))
  {
    hide Unit, Product, Magnitude, FloatValue, Stored;
    NormalFloat(exp, frac);
    FloatSign(sign, exp, frac);
    var e, top := FractionInRange(FloatValue(f));
    SameBracket(Abs(FloatValue(f)), e, top, exp - 112, frac / 0x2000);
    Fields(f, sign, exp, frac);
    FractionBits(f, sign, exp, frac);
  }

  lemma FractionBits(f: nat, sign: nat, exp: nat, frac: nat)
    requires frac < 0x80_0000 && f == sign * 0x8000_0000 + exp * 0x80_0000 + frac
    ensures f / 0x2000 % 1024 == frac / 0x2000
  {
    assert f / 0x2000 == (sign * 256 + exp) * 1024 + frac / 0x2000;
  }

  lemma FloatSign(sign: nat, exp: nat, frac: nat)
    requires sign < 2 && exp < 256 && frac < 0x80_0000
    requires Magnitude(exp, frac) >= 0.0
    ensures var x := FloatValue(sign * 0x8000_0000 + exp * 0x80_0000 + frac);
      Abs(x) == Magnitude(exp, frac) && (x < 0.0 <==> sign == 1 && Magnitude(exp, frac) > 0.0)
  {
    hide Unit, Product;
    Fields(sign * 0x8000_0000 + exp * 0x80_0000 + frac, sign, exp, frac);
  }

  /** The magnitude of a binary32 pattern. */
  function Magnitude(exp: nat, frac: nat): real {
    if exp == 0 then Product(frac as real, Unit(-111)) / 8192.0
    else Product((0x80_0000 + frac) as real, Unit(exp - 112)) / 8192.0
  }

  lemma SmallFloat(exp: nat, frac: nat)
    requires exp <= 112 && frac < 0x80_0000
    ensures 0.0 <= Magnitude(exp, frac) < MIN_NORMAL
    ensures exp != 0 || frac != 0 ==> Magnitude(exp, frac) > 0.0
  {
    hide Unit;
    var m, u := if exp == 0 then frac else 0x80_0000 + frac, Unit(if exp == 0 then -111 else exp - 112);
    UnitBelow(if exp == 0 then -111 else exp - 112);
    ProductSign(m as real, u);
    ProductMonotone(m as real, u, 16777215.0, 1.0 / 33554432.0);
    assert Product(16777215.0, 1.0 / 33554432.0) / 8192.0 < MIN_NORMAL;
  }

  lemma LargeFloat(exp: nat, frac: nat)
    requires exp >= 143
    ensures Magnitude(exp, frac) >= OVERFLOW
  {
    hide Unit;
    UnitValues();
    UnitMonotone(31, exp - 112);
    ProductMonotone(8388608.0, Unit(31), (0x80_0000 + frac) as real, Unit(exp - 112));
    assert Product(8388608.0, Unit(31)) == 8192.0 * (1024.0 * Unit(31));
  }

  lemma NormalFloat(exp: nat, frac: nat)
    requires 113 <= exp <= 142 && frac < 0x80_0000
    ensures MIN_NORMAL <= Magnitude(exp, frac) < OVERFLOW
    ensures Product((1024 + frac / 0x2000) as real, Unit(exp - 112)) <= Magnitude(exp, frac)
    ensures Magnitude(exp, frac) < Product((1024 + frac / 0x2000) as real, Unit(exp - 112)) + Unit(exp - 112)
  {
    hide Unit;
    var e, top := exp - 112, frac / 0x2000;
    var u := Unit(e);
    UnitValues();
    UnitMonotone(1, e);
    UnitMonotone(e, 30);
    UnitDouble(30);
    ProductMonotone((8192 * (1024 + top)) as real, u, (0x80_0000 + frac) as real, u);
    StrictScale((0x80_0000 + frac) as real, (8192 * (1024 + top + 1)) as real, u);
    Scale(1024 + top, u);
    Scale(1024 + top + 1, u);
    assert Product((1024 + top + 1) as real, u) == Product((1024 + top) as real, u) + u;
    ProductMonotone(1024.0, u, (1024 + top) as real, u);
    ProductMonotone((1024 + top + 1) as real, u, 2048.0, u);
    assert Product(1024.0, u) == 1024.0 * u && Product(2048.0, u) == 2048.0 * u;
  }

  lemma ProductMonotone(x: real, u: real, y: real, v: real)
    requires 0.0 <= x <= y && 0.0 <= u <= v
    ensures Product(x, u) <= Product(y, v)
  {
    ProductSign(y - x, u);
    ProductSign(y, v - u);
    assert Product(y - x, u) == Product(y, u) - Product(x, u);
    assert Product(y, v - u) == Product(y, v) - Product(y, u);
  }

  lemma StrictScale(x: real, y: real, u: real)
    requires x < y && u > 0.0
    ensures Product(x, u) < Product(y, u)
  {
    ProductSign(y - x, u);
    assert Product(y - x, u) == Product(y, u) - Product(x, u);
  }

  /** Exponent and top fraction bits are determined by the value. */
  lemma SameBracket(x: real, e: nat, f: nat, e': nat, f': nat)
    requires f < 1024 && f' < 1024
    requires Product((1024 + f) as real, Unit(e)) <= x < Product((1024 + f) as real, Unit(e)) + Unit(e)
    requires Product((1024 + f') as real, Unit(e')) <= x < Product((1024 + f') as real, Unit(e')) + Unit(e')
    ensures e == e' && f == f'
  {
    hide Unit;
    NotBelow(x, e, f, e', f');
    NotBelow(x, e', f', e, f);
    var lo, hi := if f < f' then f else f', if f < f' then f' else f;
    assert Product((1024 + lo + 1) as real, Unit(e)) == Product((1024 + lo) as real, Unit(e)) + Unit(e);
    if f != f' {
      ProductMonotone((1024 + lo + 1) as real, Unit(e), (1024 + hi) as real, Unit(e));
      assert false;
    }
  }

  lemma NotBelow(x: real, e: nat, f: nat, e': nat, f': nat)
    requires f < 1024
    requires x < Product((1024 + f) as real, Unit(e)) + Unit(e) && Product((1024 + f') as real, Unit(e')) <= x
    ensures e' <= e
  {
    hide Unit;
    UnitDouble(e);
    assert Product(1024.0, Unit(e + 1)) == Product(2048.0, Unit(e));
    assert Product((1024 + f + 1) as real, Unit(e)) == Product((1024 + f) as real, Unit(e)) + Unit(e);
    if e' > e {
      UnitMonotone(e + 1, e');
      ProductMonotone(1024.0, Unit(e + 1), (1024 + f') as real, Unit(e'));
      ProductMonotone((1024 + f + 1) as real, Unit(e), 2048.0, Unit(e));
      assert false;
    }
  }

  // ---------------------------------------------------------------- blocks

  datatype BlockQ8 = BlockQ8(d: nat, qs: seq<int>)
  datatype BlockQ4 = BlockQ4(d: nat, qs: seq<nat>)

  /** std::round: to the nearest integer, halves away from zero. */
  function Round(x: real): int {
    if x >= 0.0 then (x + 0.5).Floor else -(0.5 - x).Floor
  }

  /** Halves are rounded away from zero, anything else to the nearest integer. */
  lemma RoundIs(n: nat, x: real)
    ensures Round(n as real + 0.5) == n + 1 && Round(-(n as real) - 0.5) + n + 1 == 0
    ensures n as real - 0.5 < x < n as real + 0.5 ==> Round(x) == n && Round(-x) + n == 0
  {
  }

  /** The conversion to int: toward zero. */
  function Truncated(x: real): int {
    if x >= 0.0 then x.Floor else -(-x).Floor
  }

  function Clamp(lo: int, hi: int, x: int): int {
    if x < lo then lo else if x > hi then hi else x
  }

  function Inverse(d: real): real {
    if d != 0.0 then 1.0 / d else 0.0
  }

  function Amax(block: seq<real>, count: nat): real
    requires count <= |block|
  {
    if count == 0 then 0.0
    else
      var rest, x := Amax(block, count - 1), Abs(block[count - 1]);
      if rest < x then x else rest
  }

  lemma {:induction false} AmaxBounds(block: seq<real>, count: nat)
    requires count <= |block|
    ensures Amax(block, count) >= 0.0
    ensures forall j :: 0 <= j < count ==> Abs(block[j]) <= Amax(block, count)
  {
    if count > 0 {
      AmaxBounds(block, count - 1);
    }
  }

  /** The quantised value of x under scale d. */
  function Code8(x: real, d: real): int {
    Clamp(-127, 127, Round(Product(x, Inverse(d))))
  }

  function Code4(x: real, d: real): (q: nat)
    ensures q <= 15
  {
    Clamp(0, 15, Truncated(Product(x, Inverse(d)) + 8.5))
  }

  function Scale8(block: seq<real>): real
    requires |block| == BLOCK
  {
    Amax(block, BLOCK) / 127.0
  }

  function Scale4(block: seq<real>): real
    requires |block| == BLOCK
  {
    Amax(block, BLOCK) / -8.0
  }

  function Packed8(block: seq<real>): BlockQ8
    requires |block| == BLOCK
  {
    BlockQ8(Stored(Scale8(block)), seq(BLOCK, j requires 0 <= j < BLOCK => Code8(block[j], Scale8(block))))
  }

  /** What is stored for amax / -8: the quotient of an all-zero block is minus zero. */
  function Stored4(amax: real): nat {
    if amax == 0.0 then FloatToFp16(0x8000_0000) else Stored(amax / -8.0)
  }

  function Packed4(block: seq<real>): BlockQ4
    requires |block| == BLOCK
  {
    var d := Scale4(block);
    BlockQ4(Stored4(Amax(block, BLOCK)),
            seq(16, j requires 0 <= j < 16 => Code4(block[j], d) + 16 * Code4(block[j + 16], d)))
  }

  function Unpacked8(b: BlockQ8, j: nat): real
    requires j < |b.qs|
  {
    Product(b.qs[j] as real, HalfValue(b.d))
  }

  /** Values 0 to 15 sit in the low nibbles, 16 to 31 in the high ones. */
  function Nibble(b: BlockQ4, j: nat): nat
    requires |b.qs| == 16 && j < BLOCK
  {
    if j < 16 then b.qs[j] % 16 else b.qs[j - 16] / 16
  }

  function Unpacked4(b: BlockQ4, j: nat): real
    requires |b.qs| == 16 && j < BLOCK
  {
    Product((Nibble(b, j) - 8) as real, HalfValue(b.d))
  }

  /** The values of a block stay in their order. */
  lemma PackedInOrder(block: seq<real>, b: BlockQ8, j: nat)
    requires |block| == 32 && j < 32 && |b.qs| == 32
    ensures Packed8(block).d == Stored(Scale8(block)) && Packed8(block).qs[j] == Code8(block[j], Scale8(block))
    ensures Unpacked8(b, j) == Product(b.qs[j] as real, HalfValue(b.d))
  {
    hide Code8, Stored, Product, HalfValue, Scale8;
  }

  lemma NibblesUnpack(block: seq<real>, j: nat)
    requires |block| == BLOCK && j < BLOCK
    ensures Nibble(Packed4(block), j) == Code4(block[j], Scale4(block))
    ensures forall i :: 0 <= i < 16 ==> Packed4(block).qs[i] < 256
  {
    hide Code4, Stored4, Scale4;
    var d := Scale4(block);
    forall i | 0 <= i < 16
      ensures Packed4(block).qs[i] % 16 == Code4(block[i], d) && Packed4(block).qs[i] / 16 == Code4(block[i + 16], d)
      ensures Packed4(block).qs[i] < 256
    {
      NibblePair(Code4(block[i], d), Code4(block[i + 16], d));
    }
  }

  lemma NibblePair(lo: nat, hi: nat)
    requires lo <= 15 && hi <= 15
    ensures (lo + 16 * hi) % 16 == lo && (lo + 16 * hi) / 16 == hi && lo + 16 * hi < 256
  {
  }

  /** A byte holds the code of value j below that of value j + 16, each counted from -8. */
  lemma UnpackedIs(d: nat, qs: seq<nat>, j: nat, lo: nat, hi: nat)
    requires |qs| == 16 && j < 16 && lo < 16 && hi < 16 && qs[j] == lo + 16 * hi
    ensures Unpacked4(BlockQ4(d, qs), j) == Product((lo - 8) as real, HalfValue(d))
    ensures Unpacked4(BlockQ4(d, qs), j + 16) == Product((hi - 8) as real, HalfValue(d))
  {
    hide Product, HalfValue;
    NibblePair(lo, hi);
  }

  /** The largest magnitude is that of a value of the block. */
  lemma {:induction false} AmaxReached(block: seq<real>, count: nat)
    requires 0 < count <= |block|
    ensures exists j :: 0 <= j < count && Abs(block[j]) == Amax(block, count)
  {
    AmaxBounds(block, count);
    var last := count - 1;
    if count == 1 {
      assert Amax(block, 0) == 0.0;
      assert Abs(block[0]) == Amax(block, 1);
    } else {
      AmaxReached(block, last);
      var j :| 0 <= j < last && Abs(block[j]) == Amax(block, last);
      assert Amax(block, count) == Abs(block[j]) || Amax(block, count) == Abs(block[last]);
    }
  }

  /** The scales map the largest magnitude to the ends of the code ranges: to 127 or -127, and to
      the first code 0 if it is positive, to the clamped last code 15 if it is negative. */
  lemma ExtremeCodes(block: seq<real>, j: nat)
    requires |block| == BLOCK && j < BLOCK && Amax(block, BLOCK) > 0.0 && Abs(block[j]) == Amax(block, BLOCK)
    ensures Code8(block[j], Scale8(block)) == if block[j] > 0.0 then 127 else -127
    ensures Code4(block[j], Scale4(block)) == if block[j] > 0.0 then 0 else 15
  {
    var a, x := Amax(block, BLOCK), block[j];
    hide Amax;
    OverScale(x, a, 127.0);
    OverScale(x, a, -8.0);
  }

  lemma OverScale(x: real, a: real, steps: real)
    requires a > 0.0 && Abs(x) == a && steps != 0.0
    ensures a / steps != 0.0
    ensures Product(x, Inverse(a / steps)) == if x > 0.0 then steps else -steps
  {
    var d := a / steps;
    assert d * steps == a;
    assert 1.0 / d * d == 1.0;
    assert a * (1.0 / d) == steps;
  }

  lemma AbsProduct(x: real, y: real, bound: real)
    requires Abs(x) <= bound
    ensures Abs(Product(x, y)) <= Product(bound, Abs(y))
  {
    ProductMonotone(Abs(x), Abs(y), bound, Abs(y));
    assert Abs(Product(x, y)) == Product(Abs(x), Abs(y));
  }

  /** The error of q steps of the stored scale t against y steps of the exact scale d. */
  lemma StepError(y: real, q: real, d: real, t: real, step: real, limit: real)
    requires Abs(q - y) <= step && Abs(q) <= limit && Abs(d - t) * 1024.0 <= Abs(d)
    ensures Abs(Product(q, t) - Product(y, d)) <= Product(step, Abs(d)) + Product(limit, Abs(d)) / 1024.0
  {
    hide Product;
    AbsProduct(q, t - d, limit);
    AbsProduct(q - y, d, step);
    Distribute(q, y, d);
    Distribute(t, d, q);
    ProductMonotone(limit, Abs(t - d), limit, Abs(d) / 1024.0);
    ThousandthOf(limit, Abs(d));
  }

  lemma Distribute(a: real, b: real, c: real)
    ensures Product(a - b, c) == Product(a, c) - Product(b, c)
    ensures Product(c, a - b) == Product(c, a) - Product(c, b)
  {
  }

  lemma ThousandthOf(x: real, y: real)
    ensures Product(x, y / 1024.0) == Product(x, y) / 1024.0
  {
  }

  /** Dividing by the scale and multiplying back; the quotient is within the code range. */
  lemma InSteps(x: real, d: real, amax: real, steps: real)
    requires d != 0.0 && Abs(x) <= amax && amax == steps * Abs(d) && steps > 0.0
    ensures Product(Product(x, Inverse(d)), d) == x
    ensures -steps <= Product(x, Inverse(d)) <= steps
  {
    var y := Product(x, Inverse(d));
    assert y == x / d;
    assert Product(y, d) == x;
    assert Abs(x) == Product(Abs(y), Abs(d));
    if Abs(y) > steps {
      StrictScale(steps, Abs(y), Abs(d));
      assert false;
    }
  }

  lemma RoundNear(y: real)
    requires -127.0 <= y <= 127.0
    ensures Abs(Round(y) as real - y) <= 0.5 && -127 <= Round(y) <= 127
  {
  }

  /** An 8-bit block over the normal range of scales: half a step of rounding, and what the
      truncated scale loses over at most 127 steps. */
  lemma Error8(block: seq<real>, j: nat)
    requires |block| == BLOCK && j < BLOCK && Normal(Scale8(block))
    ensures Abs(Unpacked8(Packed8(block), j) - block[j]) <= (1.0 / 2.0 + 127.0 / 1024.0) * Scale8(block)
  {
    hide Stored, HalfValue, Amax, Round, Inverse;
    var x, d := block[j], Scale8(block);
    AmaxBounds(block, BLOCK);
    InSteps(x, d, Amax(block, BLOCK), 127.0);
    var y := Product(x, Inverse(d));
    RoundNear(y);
    TruncationError(d);
    StepError(y, Round(y) as real, d, HalfValue(Stored(d)), 0.5, 127.0);
  }

  lemma TruncateNear(y: real)
    requires -8.0 <= y <= 8.0
    ensures var q := Clamp(0, 15, Truncated(y + 8.5)) - 8;
      -8 <= q <= 7 && Abs(q as real - y) <= if y < 7.5 then 0.5 else 1.0
  {
  }

  /** A 4-bit block: half a step where the code is not clamped, a whole step where it is
      (x at or past 7.5 steps), and what the truncated scale loses over at most 8 steps. */
  lemma Error4(block: seq<real>, j: nat)
    requires |block| == BLOCK && j < BLOCK && Normal(Scale4(block))
    ensures Abs(Unpacked4(Packed4(block), j) - block[j]) <= (1.0 + 8.0 / 1024.0) * Abs(Scale4(block))
    ensures Product(block[j], Inverse(Scale4(block))) < 7.5 ==>
      Abs(Unpacked4(Packed4(block), j) - block[j]) <= (1.0 / 2.0 + 8.0 / 1024.0) * Abs(Scale4(block))
  {
    hide Stored, HalfValue, Amax, Truncated, Inverse;
    var x, d := block[j], Scale4(block);
    AmaxBounds(block, BLOCK);
    InSteps(x, d, Amax(block, BLOCK), 8.0);
    var y := Product(x, Inverse(d));
    TruncateNear(y);
    TruncationError(d);
    NibblesUnpack(block, j);
    StepError(y, (Code4(x, d) - 8) as real, d, HalfValue(Stored(d)), if y < 7.5 then 0.5 else 1.0, 8.0);
  }

  /** The whole step is reached: the most negative value of a block comes back at least one
      step short. */
  lemma FullStepReached(block: seq<real>, j: nat)
    requires |block| == BLOCK && j < BLOCK && Normal(Scale4(block)) && block[j] == -Amax(block, BLOCK)
    ensures Abs(Unpacked4(Packed4(block), j) - block[j]) >= Abs(Scale4(block))
  {
    hide Stored, HalfValue, Amax, Inverse;
    var x, d := block[j], Scale4(block);
    AmaxBounds(block, BLOCK);
    InSteps(x, d, Amax(block, BLOCK), 8.0);
    assert x == 8.0 * d;
    EightSteps(Product(x, Inverse(d)), d);
    TruncationError(d);
    NibblesUnpack(block, j);
    assert Unpacked4(Packed4(block), j) == 7.0 * HalfValue(Stored(d));
  }

  lemma EightSteps(y: real, d: real)
    requires d != 0.0 && Product(y, d) == 8.0 * d
    ensures y == 8.0
  {
  }

  lemma FlushedScale(d: real)
    requires Abs(d) < MIN_NORMAL
    ensures HalfValue(Stored(d)) == 0.0
  {
  }

  /** Minus zero is stored as 0x8000, and is worth zero. */
  lemma MinusZero()
    ensures Stored4(0.0) == 0x8000 && HalfValue(0x8000) == 0.0
  {
  }

  /** A block whose scale is below the normal range, zero included, comes back as zeros. */
  lemma FlushedBlock8(block: seq<real>, j: nat)
    requires |block| == BLOCK && j < BLOCK && Scale8(block) < MIN_NORMAL
    ensures Unpacked8(Packed8(block), j) == 0.0
  {
    hide Amax, Unit, HalfValue, Stored;
    AmaxBounds(block, BLOCK);
    FlushedScale(Scale8(block));
  }

  lemma FlushedBlock4(block: seq<real>, j: nat)
    requires |block| == BLOCK && j < BLOCK && Abs(Scale4(block)) < MIN_NORMAL
    ensures Unpacked4(Packed4(block), j) == 0.0
  {
    hide Amax, Unit, HalfValue, Stored;
    NibblesUnpack(block, j);
    FlushedScale(Scale4(block));
    MinusZero();
  }

  /** A scale of 65536 or more is stored as infinity and read back as 65536. */
  lemma OverflowedScale(d: real)
    requires Abs(d) >= OVERFLOW
    ensures HalfValue(Stored(d)) == if d < 0.0 then -OVERFLOW else OVERFLOW
  {
    hide Unit;
    UnitValues();
    HalfFields(Stored(d), if d < 0.0 then 1 else 0, 31, 0);
    assert Product(1024.0, Unit(31)) == 1024.0 * Unit(31);
  }

  /** So such a block comes back in steps of 65536, whatever its scale was. */
  lemma OverflowedBlock(block: seq<real>, j: nat)
    requires |block| == BLOCK && j < BLOCK
    ensures Scale8(block) >= OVERFLOW ==>
      Unpacked8(Packed8(block), j) == Product(Code8(block[j], Scale8(block)) as real, OVERFLOW)
    ensures Scale4(block) <= -OVERFLOW ==>
      Unpacked4(Packed4(block), j) == Product((Code4(block[j], Scale4(block)) - 8) as real, -OVERFLOW)
  {
    hide Amax, HalfValue, Stored, Product;
    NibblesUnpack(block, j);
    if Scale8(block) >= OVERFLOW {
      OverflowedScale(Scale8(block));
    }
    if Scale4(block) <= -OVERFLOW {
      OverflowedScale(Scale4(block));
    }
  }

  // ---------------------------------------------------------------- rows

  /** Blocks whose values a 32-bit index i * 32 + j tells apart. */
  const INDEXED := 0x800_0000

  /** The element a 32-bit index reaches. */
  function At32(i: nat, j: nat): (p: nat) {
    (i * 32 + j) % 0x1_0000_0000
  }

  /** The index of block i stays in one block: i itself, modulo 2^27. */
  lemma At32Is(i: nat, j: nat)
    requires j < BLOCK
    ensures At32(i, j) == (i % INDEXED) * 32 + j
  {
    assert i * 32 + j == (i / INDEXED) * 0x1_0000_0000 + ((i % INDEXED) * 32 + j);
    WrapsTo((i / INDEXED), (i % INDEXED) * 32 + j);
  }

  lemma WrapsTo(a: nat, r: nat)
    requires r < 0x1_0000_0000
    ensures (a * 0x1_0000_0000 + r) % 0x1_0000_0000 == r
  {
  }

  /** The whole blocks among k values, counted in 32 bits. */
  function BlockCount(k: nat): nat {
    k / BLOCK % 0x1_0000_0000
  }

  /** The last of the first n blocks that is indexed as block b; -1 if none is. */
  function Writer(n: nat, b: nat): (w: int)
    ensures w < n && (w >= 0 ==> w % INDEXED == b)
  {
    if n == 0 then -1 else if (n - 1) % INDEXED == b then n - 1 else Writer(n - 1, b)
  }

  lemma {:induction false} WriterIs(n: nat, b: nat)
    requires n <= INDEXED
    ensures Writer(n, b) == if b < n then b else -1
  {
    if n > 0 {
      WriterIs(n - 1, b);
    }
  }

  /** The row functions take every whole block of k values from its own place, and write it
      there, if and only if there are at most 2^27 of them. */
  lemma OwnBlocksIff(k: nat)
    ensures k / BLOCK <= INDEXED <==>
      BlockCount(k) == k / BLOCK && forall i :: 0 <= i < k / BLOCK ==> OwnPlace(k, i)
  {
    if k / BLOCK <= INDEXED {
      forall i | 0 <= i < k / BLOCK ensures OwnPlace(k, i) {
        WriterIs(k / BLOCK, i);
      }
    } else if BlockCount(k) == k / BLOCK {
      assert !OwnPlace(k, INDEXED);
    }
  }

  /** Block i is read from place i, and what place i is given is block i. */
  predicate OwnPlace(k: nat, i: nat) {
    At32(i, 0) == i * BLOCK && Writer(k / BLOCK, i) == i
  }

  /** Block i of a row. */
  function BlockOf(row: seq<real>, i: nat): seq<real>
    requires BLOCK * (i + 1) <= |row|
  {
    row[BLOCK * i..BLOCK * (i + 1)]
  }

  /** What the code reads for block i. */
  function SourceOf(row: seq<real>, k: nat, i: nat): (block: seq<real>)
    requires k <= |row| && i < k / BLOCK
    ensures |block| == BLOCK
  {
    SourceInside(i, k);
    BlockOf(row, i % INDEXED)
  }

  method LargestMagnitude(row: seq<real>, i: nat) returns (amax: real)
    requires BLOCK * (i % INDEXED + 1) <= |row|
    ensures amax == Amax(BlockOf(row, i % INDEXED), BLOCK)
  {
    hide At32;
    amax := 0.0;
    for j := 0 to BLOCK
      invariant amax == Amax(BlockOf(row, i % INDEXED), j)
    {
      At32Is(i, j);
      var magnitude := Abs(row[At32(i, j)]);
      amax := if amax < magnitude then magnitude else amax;
    }
  }

  /** The block indexed as i is one of the row's. */
  lemma SourceInside(i: nat, k: nat)
    requires i < k / BLOCK
    ensures BLOCK * (i % INDEXED + 1) <= k
  {
  }

  /** Quantises the whole blocks among the first k values, each from where its 32-bit index
      points; nothing else is written. */
  method QuantizeRowQ8(src: array<real>, dst: array<BlockQ8>, k: nat)
    requires k <= src.Length && k / BLOCK <= dst.Length
    modifies dst
    ensures forall i :: 0 <= i < dst.Length ==>
      dst[i] == if i < BlockCount(k) then Packed8(SourceOf(src[..], k, i)) else old(dst[i])
  {
    hide Packed8, SourceOf;
    var nb := BlockCount(k);
    for i := 0 to nb
      invariant forall b :: 0 <= b < dst.Length ==>
        dst[b] == if b < i then Packed8(SourceOf(src[..], k, b)) else old(dst[b])
    {
      dst[i] := QuantizeBlockQ8(src[..], i, k);
    }
  }

  method QuantizeBlockQ8(row: seq<real>, i: nat, k: nat) returns (block: BlockQ8)
    requires k <= |row| && i < k / BLOCK
    ensures block == Packed8(SourceOf(row, k, i))
  {
    hide Stored, Amax, Code8;
    SourceInside(i, k);
    var amax := LargestMagnitude(row, i);
    var d := amax / 127.0;
    var qs := QuantizeCodes8(row, i, d, if d != 0.0 then 1.0 / d else 0.0);
    block := BlockQ8(Stored(d), qs);
  }

  method QuantizeCodes8(row: seq<real>, i: nat, d: real, id: real) returns (qs: seq<int>)
    requires BLOCK * (i % INDEXED + 1) <= |row| && id == Inverse(d)
    ensures qs == seq(BLOCK, j requires 0 <= j < BLOCK => Code8(BlockOf(row, i % INDEXED)[j], d))
  {
    hide Product, Round, Inverse, At32;
    var block := BlockOf(row, i % INDEXED);
    qs := [];
    for j := 0 to BLOCK
      invariant |qs| == j && forall u :: 0 <= u < j ==> qs[u] == Code8(block[u], d)
    {
      At32Is(i, j);
      var val := Round(Product(row[At32(i, j)], id));
      qs := qs + [Clamp(-127, 127, val)];
    }
  }

  method QuantizeRowQ4(src: array<real>, dst: array<BlockQ4>, k: nat)
    requires k <= src.Length && k / BLOCK <= dst.Length
    modifies dst
    ensures forall i :: 0 <= i < dst.Length ==>
      dst[i] == if i < BlockCount(k) then Packed4(SourceOf(src[..], k, i)) else old(dst[i])
  {
    hide Packed4, SourceOf;
    var nb := BlockCount(k);
    for i := 0 to nb
      invariant forall b :: 0 <= b < dst.Length ==>
        dst[b] == if b < i then Packed4(SourceOf(src[..], k, b)) else old(dst[b])
    {
      dst[i] := QuantizeBlockQ4(src[..], i, k);
    }
  }

  method QuantizeBlockQ4(row: seq<real>, i: nat, k: nat) returns (block: BlockQ4)
    requires k <= |row| && i < k / BLOCK
    ensures block == Packed4(SourceOf(row, k, i))
  {
    hide Stored4, Amax, Code4;
    SourceInside(i, k);
    var amax := LargestMagnitude(row, i);
    var d := amax / -8.0;
    var qs := QuantizeNibbles(row, i, d, if d != 0.0 then 1.0 / d else 0.0);
    block := BlockQ4(Stored4(amax), qs);
  }

  method QuantizeNibbles(row: seq<real>, i: nat, d: real, id: real) returns (qs: seq<nat>)
    requires BLOCK * (i % INDEXED + 1) <= |row| && id == Inverse(d)
    ensures qs == seq(16, j requires 0 <= j < 16 =>
      Code4(BlockOf(row, i % INDEXED)[j], d) + 16 * Code4(BlockOf(row, i % INDEXED)[j + 16], d))
  {
    hide Product, Truncated, Inverse, At32;
    var block := BlockOf(row, i % INDEXED);
    qs := [];
    for j := 0 to 16
      invariant |qs| == j
      invariant forall u :: 0 <= u < j ==>
        qs[u] == Code4(block[u], d) + 16 * Code4(block[u + 16], d)
    {
      At32Is(i, j);
      At32Is(i, j + 16);
      var x0, x1 := Product(row[At32(i, j)], id), Product(row[At32(i, j + 16)], id);
      var xi0, xi1 := Clamp(0, 15, Truncated(x0 + 8.5)), Clamp(0, 15, Truncated(x1 + 8.5));
      qs := qs + [xi0 + xi1 * 16];
    }
  }

  lemma PlaceInside(i: nat, k: nat, length: nat)
    requires i < k / BLOCK && k <= length
    ensures (i % INDEXED + 1) * BLOCK <= length
  {
  }

  /** What the row holds at p once the first n blocks have been written. */
  function Dequantized8(src: seq<BlockQ8>, n: nat, p: nat, was: real): real
    requires n <= |src| && forall i :: 0 <= i < |src| ==> |src[i].qs| == BLOCK
  {
    var w := Writer(n, p / BLOCK);
    if w >= 0 then Unpacked8(src[w], p % BLOCK) else was
  }

  function Dequantized4(src: seq<BlockQ4>, n: nat, p: nat, was: real): real
    requires n <= |src| && forall i :: 0 <= i < |src| ==> |src[i].qs| == 16
  {
    var w := Writer(n, p / BLOCK);
    if w >= 0 then Unpacked4(src[w], p % BLOCK) else was
  }

  method DequantizeRowQ8(src: seq<BlockQ8>, dst: array<real>, k: nat)
    requires k <= dst.Length && k / BLOCK <= |src|
    requires forall i :: 0 <= i < |src| ==> |src[i].qs| == BLOCK
    modifies dst
    ensures forall p :: 0 <= p < dst.Length ==> dst[p] == Dequantized8(src, BlockCount(k), p, old(dst[p]))
  {
    hide Unpacked8;
    var nb := BlockCount(k);
    for i := 0 to nb
      invariant forall p :: 0 <= p < dst.Length ==> dst[p] == Dequantized8(src, i, p, old(dst[p]))
    {
      PlaceInside(i, k, dst.Length);
      DequantizeBlockQ8(src[i], dst, i);
    }
  }

  /** The inner loop of one block. */
  method DequantizeBlockQ8(block: BlockQ8, dst: array<real>, i: nat)
    requires (i % INDEXED + 1) * BLOCK <= dst.Length && |block.qs| == BLOCK
    modifies dst
    ensures forall p :: 0 <= p < dst.Length ==>
      dst[p] == if p / BLOCK == i % INDEXED then Unpacked8(block, p % BLOCK) else old(dst[p])
  {
    hide Product, HalfValue, At32;
    var d := HalfValue(block.d);
    for j := 0 to BLOCK
      invariant forall u :: 0 <= u < j ==> dst[(i % INDEXED) * 32 + u] == Unpacked8(block, u)
      invariant forall p :: 0 <= p < dst.Length && p / BLOCK != i % INDEXED ==> dst[p] == old(dst[p])
    {
      At32Is(i, j);
      dst[At32(i, j)] := Product(block.qs[j] as real, d);
    }
    forall p | 0 <= p < dst.Length && p / BLOCK == i % INDEXED ensures dst[p] == Unpacked8(block, p % BLOCK) {
      assert p == (i % INDEXED) * 32 + p % BLOCK;
    }
  }

  method DequantizeRowQ4(src: seq<BlockQ4>, dst: array<real>, k: nat)
    requires k <= dst.Length && k / BLOCK <= |src|
    requires forall i :: 0 <= i < |src| ==> |src[i].qs| == 16
    modifies dst
    ensures forall p :: 0 <= p < dst.Length ==> dst[p] == Dequantized4(src, BlockCount(k), p, old(dst[p]))
  {
    hide Unpacked4;
    var nb := BlockCount(k);
    for i := 0 to nb
      invariant forall p :: 0 <= p < dst.Length ==> dst[p] == Dequantized4(src, i, p, old(dst[p]))
    {
      PlaceInside(i, k, dst.Length);
      DequantizeBlockQ4(src[i], dst, i);
    }
  }

  /** The inner loop: byte j of the block gives values j and j + 16. */
  method DequantizeBlockQ4(block: BlockQ4, dst: array<real>, i: nat)
    requires (i % INDEXED + 1) * BLOCK <= dst.Length && |block.qs| == 16
    modifies dst
    ensures forall p :: 0 <= p < dst.Length ==>
      dst[p] == if p / BLOCK == i % INDEXED then Unpacked4(block, p % BLOCK) else old(dst[p])
  {
    hide Product, HalfValue, At32;
    var d := HalfValue(block.d);
    for j := 0 to 16
      invariant forall u :: 0 <= u < j ==> dst[(i % INDEXED) * 32 + u] == Unpacked4(block, u)
      invariant forall u :: 16 <= u < j + 16 ==> dst[(i % INDEXED) * 32 + u] == Unpacked4(block, u)
      invariant forall p :: 0 <= p < dst.Length && p / BLOCK != i % INDEXED ==> dst[p] == old(dst[p])
    {
      At32Is(i, j);
      At32Is(i, j + 16);
      var vi: int := block.qs[j];
      dst[At32(i, j)] := Product((vi % 16 - 8) as real, d);
      dst[At32(i, j + 16)] := Product((vi / 16 - 8) as real, d);
    }
    forall p | 0 <= p < dst.Length && p / BLOCK == i % INDEXED ensures dst[p] == Unpacked4(block, p % BLOCK) {
      assert p == (i % INDEXED) * 32 + p % BLOCK;
    }
  }
}
