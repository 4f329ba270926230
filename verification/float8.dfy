/** The 8-bit activation codec (distributed.c:879-923).  Values are exact reals; the one sum that float arithmetic may
    round, x + 0.5f, is a parameter. */
module Float8 {
  import opened Words
  import opened Half

  /** 2 to the power e. */
  function Scale(e: int): (r: real)
    ensures r > 0.0
    decreases if e < 0 then -e else e
  {
    if e == 0 then 1.0 else if e > 0 then 2.0 * Scale(e - 1) else Scale(e + 1) / 2.0
  }

  /** The magnitude of a finite 32-bit float. */
  function Value(b: u32): real
    requires Finite(b)
  {
    Magnitude(b) as real * Scale(-149)
  }

  /** plusHalf is x + 0.5f on floats: monotone, and exact where the sum needs few bits. */
  ghost predicate FloatSum(plusHalf: real -> real) {
    && (forall x, y :: x <= y ==> plusHalf(x) <= plusHalf(y))
    && (forall x :: 0.0 <= x <= 8.0 && x.Floor as real == x ==> plusHalf(x) == x + 0.5)
  }

  /** The e with 2^e <= a < 2^(e+1), as frexpf gives it (less one). */
  function FloorLog(a: real, from: int): (e: int)
    requires from <= 7 && Scale(from) <= a < Scale(8)
    ensures from <= e <= 7 && Scale(e) <= a < Scale(e + 1)
    decreases 8 - from
  {
    if from == 7 || a < Scale(from + 1) then from else FloorLog(a, from + 1)
  }

  /** The mantissa of a value below the normal range, in steps of 2^-9. */
  function Subnormal(plusHalf: real -> real, sign: nat, a: real): int {
    var mant := plusHalf(a * 512.0).Floor;
    if mant <= 0 then sign else if mant > 7 then sign + 7 else sign + mant
  }

  /** The quotient by a power of two, which is exact. */
  function Ratio(a: real, base: real): real
    requires base > 0.0
  {
    a / base
  }

  function Times(k: nat, s: real): real {
    k as real * s
  }

  function Encode8(plusHalf: real -> real, b: u32): int {
    var sign := Sign(b) * 0x80;
    if !Finite(b) then sign + 0x77
    else
      var a := Value(b);
      if a == 0.0 then sign
      else if a >= 240.0 then sign + 0x77
      else if a < Scale(-9) then Subnormal(plusHalf, sign, a)
      else
        ScaleValues();
        var e := FloorLog(a, -9);
        var exp := e + 7;
        if exp <= 0 then Subnormal(plusHalf, sign, a)
        else
          var mant := plusHalf((Ratio(a, Scale(e)) - 1.0) * 8.0).Floor;
          var (mant', exp') := if mant >= 8 then (0, exp + 1) else (mant, exp);
          if exp' >= 15 then sign + 0x77 else sign + exp' * 8 + mant'
  }

  /** The float that the code's value is; every such value is exact. */
  function Decode8(c: u8): u32 {
    var sign, exp, mant := c / 0x80, c / 8 % 16, c % 8;
    if exp == 0 then
      if mant == 0 then Float(sign, 0, 0)
      else if mant == 1 then Float(sign, 118, 0)
      else if mant < 4 then Float(sign, 119, (mant - 2) * 0x40_0000)
      else Float(sign, 120, (mant - 4) * 0x20_0000)
    else if exp == 15 then Float(sign, 134, 0x70_0000)
    else Float(sign, exp + 120, mant * 0x10_0000)
  }

  lemma {:induction false} ScaleAdd(a: int, n: nat)
    ensures Scale(a + n) == Scale(a) * Pow2(n) as real
  {
    hide Scale, Pow2;
    if n == 0 {
      PowOne();
    } else {
      ScaleAdd(a, n - 1);
      ScaleDouble(a + n - 1);
      PowNext(n);
      DoubleProduct(Scale(a), Pow2(n - 1));
    }
  }

  lemma {:induction false} PowNext(n: nat)
    requires n > 0
    ensures Pow2(n) == 2 * Pow2(n - 1)
  {
  }

  lemma {:induction false} DoubleProduct(s: real, p: nat)
    ensures 2.0 * (s * p as real) == s * (2 * p) as real
  {
  }

  lemma {:induction false} ScaleDouble(e: int)
    ensures Scale(e + 1) == 2.0 * Scale(e)
  {
  }

  lemma {:induction false} ScaleValues()
    ensures Scale(-9) == 1.0 / 512.0 && Scale(8) == 256.0 && Scale(0) == 1.0
  {
    assert Scale(0) == 1.0;
    ScaleAdd(-9, 9);
    ScaleAdd(0, 8);
    PowNine();
  }

  lemma {:induction false} PowNine()
    ensures Pow2(9) == 512 && Pow2(8) == 256
  {
  }

  /** A normal float is its mantissa over 2^23, scaled by its exponent. */
  lemma {:induction false} NormalValue(b: u32)
    requires 0 < Field(b) < 255
    ensures Value(b) == (0x80_0000 + Mant(b)) as real * Scale(Field(b) - 150)
  {
    hide Pow2, Scale, Field, Mant;
    var f, m := Field(b), 0x80_0000 + Mant(b);
    ScaleAdd(-149, f - 1);
    var p := Pow2(f - 1);
    assert (m * p) as real == m as real * p as real;
    RealAssociate(m as real, p as real, Scale(-149));
  }

  lemma {:induction false} RealAssociate(a: real, b: real, c: real)
    ensures a * b * c == a * (c * b)
  {
  }

  lemma {:induction false} ScaleIncreases(a: int, b: int)
    requires a < b
    ensures Scale(a) < Scale(b)
    decreases b - a
  {
    ScaleDouble(b - 1);
    if a < b - 1 {
      hide Scale;
      ScaleIncreases(a, b - 1);
    }
  }

  lemma {:induction false} FloorLogUnique(a: real, e: int, f: int)
    requires Scale(e) <= a < Scale(e + 1) && Scale(f) <= a < Scale(f + 1)
    ensures e == f
  {
    hide Scale;
    if e + 1 < f { ScaleIncreases(e + 1, f); }
    if f + 1 < e { ScaleIncreases(f + 1, e); }
  }

  /** k * 2^n * 2^e, as a float with a mantissa of k * 2^n has it. */
  lemma {:induction false} MantissaScale(k: nat, n: nat, e: int)
    ensures (k * Pow2(n)) as real * Scale(e) == k as real * Scale(e + n)
  {
    hide Scale, Pow2;
    ScaleAdd(e, n);
    var p := Pow2(n);
    assert (k * p) as real == k as real * p as real;
    RealAssociate(k as real, p as real, Scale(e));
  }

  /** The value of a code with this exponent and mantissa. */
  function CodeValue(exp: nat, mant: nat): real {
    if exp == 0 then Times(mant, Scale(-9)) else Times(8 + mant, Scale(exp - 10))
  }

  /** The codes that no sender makes decode to 240, like the largest one sent. */
  lemma {:induction false} Decode8Top(c: u8)
    requires c % 0x80 > 0x77
    ensures Decode8(c) == Decode8(if c < 0x80 then 0x77 else 0xf7)
  {
    hide Float;
    assert c / 8 % 16 == 15;
  }

  /** Decoding gives the value the code stands for: mant / 512, or (1 + mant / 8) * 2^(exp - 7). */
  lemma {:induction false} Decode8Exact(c: u8)
    requires c % 0x80 <= 0x77
    ensures var b, exp, mant := Decode8(c), c / 8 % 16, c % 8;
      && Sign(b) == c / 0x80 && Finite(b)
      && Value(b) == CodeValue(exp, mant)
  {
    hide Scale, Pow2, Float, Sign, Field, Mant, Value, Times;
    var b, exp, mant := Decode8(c), c / 8 % 16, c % 8;
    assert exp <= 14;
    if exp != 0 {
      ScaledValue(b, 8 + mant, 20);
    } else if mant == 0 {
      ZeroValue(b);
    } else if mant == 1 {
      ScaledValue(b, 1, 23);
    } else if mant < 4 {
      ScaledValue(b, mant, 22);
    } else {
      ScaledValue(b, mant, 21);
    }
  }

  lemma {:induction false} ZeroValue(b: u32)
    requires Field(b) == 0 && Mant(b) == 0
    ensures Value(b) == 0.0 == Times(0, Scale(-9))
  {
    hide Scale;
  }

  lemma {:induction false} ScaledValue(b: u32, k: nat, n: nat)
    requires 0 < Field(b) < 255 && 20 <= n <= 23
    requires 0x80_0000 + Mant(b) ==
      k * if n == 20 then 0x10_0000 else if n == 21 then 0x20_0000 else if n == 22 then 0x40_0000 else 0x80_0000
    ensures Value(b) == Times(k, Scale(Field(b) + n - 150))
  {
    hide Scale, Pow2, Field, Mant, Value;
    SmallPowers();
    MorePowers();
    NormalValue(b);
    MantissaScale(k, n, Field(b) - 150);
  }

  lemma {:induction false} MorePowers()
    ensures Pow2(21) == 0x20_0000 && Pow2(22) == 0x40_0000
  {
    SmallPowers();
    hide Pow2;
    PowOne();
    Pow2Add(20, 1);
    Pow2Add(21, 1);
  }

  /** What the encoder can send: both zeros up to both largest values, whatever the input and the rounding. */
  lemma {:induction false} Encode8Range(plusHalf: real -> real, b: u32)
    requires FloatSum(plusHalf)
    ensures 0 <= Encode8(plusHalf, b) < 0x100 && Encode8(plusHalf, b) % 0x80 <= 0x77
    ensures Encode8(plusHalf, b) / 0x80 == Sign(b)
  {
    hide Scale, Value, Finite, Ratio, FloatSum, FloorLog;
    SignRange(b);
    if Finite(b) && Scale(-9) <= Value(b) < 240.0 {
      MiddleRange(plusHalf, b);
    } else {
      OuterRange(plusHalf, b);
    }
    hide Sign, Encode8;
    SignedCode(Encode8(plusHalf, b), Sign(b));
  }

  lemma {:induction false} SignedCode(code: int, sign: nat)
    requires sign < 2 && 0 <= code - sign * 0x80 <= 0x77
    ensures 0 <= code < 0x100 && code % 0x80 <= 0x77 && code / 0x80 == sign
  {
  }

  lemma {:induction false} OuterRange(plusHalf: real -> real, b: u32)
    requires !(Finite(b) && Scale(-9) <= Value(b) < 240.0)
    ensures 0 <= Encode8(plusHalf, b) - Sign(b) * 0x80 <= 0x77
  {
    hide Scale, Value, Finite, Ratio, FloorLog, Sign;
  }

  lemma {:induction false} SignRange(b: u32)
    ensures Sign(b) < 2
  {
  }

  lemma {:induction false} MiddleRange(plusHalf: real -> real, b: u32)
    requires FloatSum(plusHalf) && Finite(b) && Scale(-9) <= Value(b) < 240.0
    ensures 0 <= Encode8(plusHalf, b) - Sign(b) * 0x80 <= 0x77
  {
    hide Scale, Value, Finite, Ratio, FloatSum, Sign;
    ScaleValues();
    var a := Value(b);
    MantissaRange(plusHalf, a, FloorLog(a, -9));
  }

  lemma {:induction false} MantissaRange(plusHalf: real -> real, a: real, e: int)
    requires FloatSum(plusHalf) && Scale(e) <= a < Scale(e + 1)
    ensures 0 <= plusHalf((Ratio(a, Scale(e)) - 1.0) * 8.0).Floor <= 8
  {
    ScaleDouble(e);
    hide Scale, Ratio, FloatSum;
    QuotientRange(a, Scale(e));
    SumRange(plusHalf, (Ratio(a, Scale(e)) - 1.0) * 8.0);
  }

  lemma {:induction false} SumRange(plusHalf: real -> real, x: real)
    requires FloatSum(plusHalf) && 0.0 <= x < 8.0
    ensures 0 <= plusHalf(x).Floor <= 8
  {
    assert plusHalf(0.0) <= plusHalf(x) <= plusHalf(8.0);
    assert plusHalf(0.0) == 0.5 && plusHalf(8.0) == 8.5;
  }

  lemma {:induction false} QuotientRange(a: real, s: real)
    requires s > 0.0 && s <= a < 2.0 * s
    ensures 1.0 <= Ratio(a, s) < 2.0
  {
    ProductRange(Ratio(a, s), s, a);
  }

  lemma {:induction false} ProductRange(q: real, s: real, a: real)
    requires s > 0.0 && q * s == a && s <= a < 2.0 * s
    ensures 1.0 <= q < 2.0
  {
    CompareReals(q, 1.0, s);
    CompareReals(2.0, q, s);
  }

  lemma {:induction false} CompareReals(a: real, b: real, s: real)
    requires s > 0.0
    ensures a < b ==> a * s < b * s
    ensures a <= b ==> a * s <= b * s
  {
    if a < b { assert (b - a) * s > 0.0; }
  }

  lemma {:induction false} HalfSumFloor(plusHalf: real -> real, m: nat)
    requires FloatSum(plusHalf) && m <= 8
    ensures plusHalf(m as real).Floor == m
  {
    assert (m as real).Floor == m;
  }

  lemma {:induction false} SubnormalInverse(plusHalf: real -> real, c: u8)
    requires FloatSum(plusHalf) && c / 8 % 16 == 0 && c % 8 != 0
    ensures Encode8(plusHalf, Decode8(c)) == c
  {
    hide Scale, Value, Sign, Finite, Decode8, Ratio;
    var b, mant := Decode8(c), c % 8;
    Decode8Exact(c);
    ScaleValues();
    var a := Value(b);
    assert a == mant as real / 512.0 by { assert Times(mant, 1.0 / 512.0) == mant as real / 512.0; }
    var e := FloorLog(a, -9);
    assert a < Scale(-6) by { ScaleAdd(-9, 3); PowThree(); }
    if e > -6 { ScaleIncreases(-6, e); }
    HalfSumFloor(plusHalf, mant);
    assert a * 512.0 == mant as real;
  }

  lemma {:induction false} PowThree()
    ensures Pow2(3) == 8
  {
  }

  lemma {:induction false} NormalInverse(plusHalf: real -> real, c: u8)
    requires FloatSum(plusHalf) && c / 8 % 16 != 0 && c % 0x80 <= 0x77
    ensures Encode8(plusHalf, Decode8(c)) == c
  {
    hide Scale, Value, Sign, Finite, Decode8, Encode8, FloatSum, Ratio, Times;
    var b, exp, mant := Decode8(c), c / 8 % 16, c % 8;
    CodeParts(c);
    Decode8Exact(c);
    NormalBounds(exp, mant);
    if Value(b) < 240.0 {
      NormalMantissa(exp, mant);
      HalfSumFloor(plusHalf, mant);
      Encode8Normal(plusHalf, b, exp, mant);
    } else {
      Encode8Large(plusHalf, b);
    }
  }

  /** The value of a normal code lies between its power of two and the next, mant eighths above it. */
  lemma {:induction false} NormalMantissa(exp: nat, mant: nat)
    requires 1 <= exp <= 14 && mant < 8
    ensures var a := Times(8 + mant, Scale(exp - 10));
      && Scale(exp - 7) <= a < Scale(exp - 6)
      && (Ratio(a, Scale(exp - 7)) - 1.0) * 8.0 == mant as real
  {
    hide Scale, Ratio, Times;
    var s := Scale(exp - 10);
    assert Scale(exp - 7) == 8.0 * s by { ScaleAdd(exp - 10, 3); PowThree(); }
    assert Scale(exp - 6) == 16.0 * s by { ScaleAdd(exp - 10, 4); PowFour(); }
    TimesBounds(8 + mant, s);
    RatioOfScales(8 + mant, s);
  }

  lemma {:induction false} CodeParts(c: u8)
    ensures c == c / 0x80 * 0x80 + c / 8 % 16 * 8 + c % 8
    ensures c % 0x80 <= 0x77 ==> c / 8 % 16 <= 14
  {
  }

  lemma {:induction false} Encode8Normal(plusHalf: real -> real, b: u32, exp: nat, mant: nat)
    requires Finite(b) && Scale(-9) <= Value(b) < 240.0 && 1 <= exp <= 14 && mant < 8
    requires Scale(exp - 7) <= Value(b) < Scale(exp - 6)
    requires plusHalf((Ratio(Value(b), Scale(exp - 7)) - 1.0) * 8.0).Floor == mant
    ensures Encode8(plusHalf, b) == Sign(b) * 0x80 + exp * 8 + mant
  {
    hide Scale, Value, Sign, Finite, Ratio, Subnormal;
    ScaleValues();
    FloorLogUnique(Value(b), FloorLog(Value(b), -9), exp - 7);
  }

  lemma {:induction false} Encode8Large(plusHalf: real -> real, b: u32)
    requires Finite(b) && Value(b) >= 240.0
    ensures Encode8(plusHalf, b) == Sign(b) * 0x80 + 0x77
  {
    hide Scale, Value, Sign, Finite, FloorLog, Subnormal, Ratio;
  }

  lemma {:induction false} RatioOfScales(k: nat, s: real)
    requires s > 0.0
    ensures 8.0 * Ratio(Times(k, s), 8.0 * s) == k as real
  {
    var q := Ratio(Times(k, s), 8.0 * s);
    assert q * (8.0 * s) == Times(k, s);
    CancelScale(8.0 * q, k as real, s);
  }

  lemma {:induction false} CancelScale(a: real, b: real, s: real)
    requires s > 0.0 && a * s == b * s
    ensures a == b
  {
    CompareReals(a, b, s);
    CompareReals(b, a, s);
  }

  lemma {:induction false} NormalBounds(exp: nat, mant: nat)
    requires 1 <= exp <= 14 && mant < 8
    ensures var a, s := Times(8 + mant, Scale(exp - 10)), Scale(exp - 10);
      && Scale(-9) <= a && (a >= 240.0 <==> exp == 14 && mant == 7)
      && 8.0 * s <= a < 16.0 * s
  {
    ScaleValues();
    hide Scale, Times;
    var s := Scale(exp - 10);
    if exp > 1 { ScaleIncreases(-9, exp - 10); }
    TimesBounds(8 + mant, s);
    if exp == 14 {
      assert Scale(4) == 16.0 by { ScaleAdd(0, 4); PowFour(); }
      TimesSixteen(8 + mant);
    } else {
      assert Scale(3) == 8.0 by { ScaleAdd(0, 3); PowThree(); }
      if exp < 13 { ScaleIncreases(exp - 10, 3); }
    }
  }

  lemma {:induction false} TimesBounds(k: nat, s: real)
    requires s > 0.0 && 8 <= k < 16
    ensures 8.0 * s <= Times(k, s) < 16.0 * s
  {
    CompareReals(8.0, k as real, s);
    CompareReals(k as real, 16.0, s);
  }

  lemma {:induction false} TimesSixteen(k: nat)
    ensures Times(k, 16.0) == 16.0 * k as real
  {
  }

  lemma {:induction false} PowFour()
    ensures Pow2(4) == 16
  {
  }

  /** Decoding and encoding again gives every sent code back. */
  lemma {:induction false} Encode8Inverse(plusHalf: real -> real, c: u8)
    requires FloatSum(plusHalf) && c % 0x80 <= 0x77
    ensures Encode8(plusHalf, Decode8(c)) == c
  {
    hide Encode8, Decode8, FloatSum, Value, Sign, Finite, Scale, Times;
    if c / 8 % 16 != 0 {
      NormalInverse(plusHalf, c);
    } else if c % 8 != 0 {
      SubnormalInverse(plusHalf, c);
    } else {
      CodeParts(c);
      Decode8Exact(c);
      NothingTimes(Scale(-9));
      EncodedZero(plusHalf, Decode8(c));
    }
  }

  lemma {:induction false} NothingTimes(s: real)
    ensures Times(0, s) == 0.0
  {
  }

  lemma {:induction false} EncodedZero(plusHalf: real -> real, b: u32)
    requires Finite(b) && Value(b) == 0.0
    ensures Encode8(plusHalf, b) == Sign(b) * 0x80
  {
    hide Value, Sign, Finite;
  }
}
