/** When the 8-bit encoder picks a nearest code.  It clamps the subnormal mantissa at 7 instead of carrying into the
    first normal code (distributed.c:885-901), and its sum x + 0.5f rounds one float below 1/2 up to 1; it is off in
    these two places and nowhere else. */
module Float8Nearest {
  import opened Words
  import opened Half
  import opened Float8
  import opened Float32Sum

  const LARGEST: nat := 0x77

  /** The magnitude of a code without its sign, in units of 1/512. */
  function Steps(c: nat): nat
    requires c <= LARGEST
  {
    if c < 8 then c else (8 + c % 8) * Pow2(c / 8 - 1)
  }

  function Distance(a: real, b: real): real {
    if a < b then b - a else a - b
  }

  /** No code is nearer to y / 512 than c. */
  ghost predicate Nearest(y: real, c: int) {
    0 <= c <= LARGEST && forall d :: 0 <= d <= LARGEST ==> NoNearer(y, c, d)
  }

  ghost predicate NoNearer(y: real, c: nat, d: nat)
    requires c <= LARGEST && d <= LARGEST
  {
    Distance(y, Steps(c) as real) <= Distance(y, Steps(d) as real)
  }

  // ---------- Codes in order ----------

  lemma {:induction false} StepsAt(exp: nat, m: nat)
    requires 0 < exp && m < 8 && exp * 8 + m <= LARGEST
    ensures Steps(exp * 8 + m) == (8 + m) * Pow2(exp - 1)
  {
    hide Pow2;
    var c := exp * 8 + m;
    assert c / 8 == exp && c % 8 == m;
  }

  lemma {:induction false} SmallSteps(c: nat)
    requires c <= 8
    ensures Steps(c) == c
  {
  }

  lemma {:induction false} StepUp(c: nat)
    requires c < LARGEST
    ensures Steps(c + 1) == Steps(c) + Pow2(if c < 8 then 0 else c / 8 - 1)
  {
    hide Pow2, Steps;
    PowOne();
    if c < 8 {
      SmallSteps(c);
      SmallSteps(c + 1);
    } else {
      var e, m := c / 8, c % 8;
      StepsAt(e, m);
      if m < 7 {
        StepsAt(e, m + 1);
        Distribute(8 + m, 1, Pow2(e - 1));
      } else {
        StepsAt(e + 1, 0);
        Pow2Add(1, e - 1);
      }
    }
  }

  lemma {:induction false} StepsIncrease(c: nat, d: nat)
    requires c < d <= LARGEST
    ensures Steps(c) < Steps(d)
    decreases d
  {
    hide Steps, Pow2;
    StepUp(d - 1);
    if c < d - 1 {
      StepsIncrease(c, d - 1);
    }
  }

  /** It is enough to look at the midpoints to the two neighbours. */
  lemma {:induction false} NearestByNeighbours(y: real, c: nat)
    requires c <= LARGEST
    requires c > 0 ==> (Steps(c - 1) + Steps(c)) as real <= 2.0 * y
    requires c < LARGEST ==> 2.0 * y <= (Steps(c) + Steps(c + 1)) as real
    ensures Nearest(y, c)
  {
    hide Steps;
    forall d | 0 <= d <= LARGEST ensures NoNearer(y, c, d) {
      if d < c {
        StepsIncrease(d, c);
        if d < c - 1 { StepsIncrease(d, c - 1); }
      } else if d > c {
        StepsIncrease(c, d);
        if d > c + 1 { StepsIncrease(c + 1, d); }
      }
    }
  }

  // ---------- The ranges of the encoder ----------

  /** Below the normal range the mantissa is clamped at 7. */
  function Clamped(m: int): int {
    if m <= 0 then 0 else if m > 7 then 7 else m
  }

  lemma {:induction false} SubnormalNearest(y: real)
    requires 0.0 <= y < 8.0
    ensures Nearest(y, Clamped((y + 0.5).Floor)) <==> !(7.5 < y)
  {
    var m := Clamped((y + 0.5).Floor);
    SmallSteps(7);
    SmallSteps(8);
    SmallSteps(m);
    SmallSteps(m + 1);
    if m > 0 { SmallSteps(m - 1); }
    hide Steps;
    if y <= 7.5 {
      NearestByNeighbours(y, m);
    } else {
      assert m == 7;
      assert !NoNearer(y, 7, 8);
    }
  }

  /** The magnitude, in units of 1/512, x eighths above a power of two; p is an eighth of that power. */
  function Level(x: real, p: nat): real {
    (8.0 + x) * p as real
  }

  lemma {:induction false} LevelIncreases(x: real, y: real, p: nat)
    requires p > 0 && x <= y
    ensures Level(x, p) <= Level(y, p)
  {
    CompareReals(8.0 + x, 8.0 + y, p as real);
  }

  lemma {:induction false} LevelMid(x: real, p: nat)
    ensures Level(x, p) + Level(x + 1.0, p) == 2.0 * Level(x + 0.5, p)
  {
  }

  /** Mantissa 8 is mantissa 0 of the next exponent, so the carry needs no case of its own. */
  lemma {:induction false} StepsOf(exp: nat, m: nat)
    requires 0 < exp && m <= 8 && exp * 8 + m <= LARGEST
    ensures Steps(exp * 8 + m) as real == Level(m as real, Pow2(exp - 1))
  {
    hide Steps, Pow2;
    var p := Pow2(exp - 1);
    if m < 8 {
      StepsAt(exp, m);
    } else {
      StepsAt(exp + 1, 0);
      PowOne();
      Pow2Add(1, exp - 1);
    }
    var k := 8 + m;
    assert (k * p) as real == k as real * p as real;
  }

  /** In the normal range, rounding the mantissa picks a nearest code. */
  lemma {:induction false} NormalNearest(exp: nat, x: real, m: nat)
    requires 1 <= exp <= 14 && 0.0 <= x < 8.0 && m == (x + 0.5).Floor && exp * 8 + m <= LARGEST
    ensures Nearest(Level(x, Pow2(exp - 1)), exp * 8 + m)
  {
    hide Pow2, Steps, Nearest, Level;
    var c, p := exp * 8 + m, Pow2(exp - 1);
    StepsOf(exp, m);
    if m > 0 {
      StepsOf(exp, m - 1);
      LevelMid(m as real - 1.0, p);
      LevelIncreases(m as real - 0.5, x, p);
    } else {
      StepsIncrease(c - 1, c);
      LevelIncreases(0.0, x, p);
    }
    if m < 8 {
      if c < LARGEST { StepsOf(exp, m + 1); }
      LevelMid(m as real, p);
      LevelIncreases(x, m as real + 0.5, p);
    } else {
      if c < LARGEST { StepsIncrease(c, c + 1); }
      LevelIncreases(x, 8.0, p);
    }
    NearestByNeighbours(Level(x, p), c);
  }

  // ---------- The encoder ----------

  lemma {:induction false} EncodedLarge(plusHalf: real -> real, b: u32)
    requires Finite(b) && Value(b) >= 240.0
    ensures Encode8(plusHalf, b) - Sign(b) * 0x80 == LARGEST
  {
    hide Value, Sign, Finite;
    Encode8Large(plusHalf, b);
  }

  lemma {:induction false} EncodedSmall(b: u32)
    requires Finite(b) && Value(b) < Scale(-6)
    ensures Scale(-6) == 8.0 / 512.0 && Value(b) >= 0.0
    ensures Encode8(PlusHalf, b) - Sign(b) * 0x80 == Clamped(PlusHalf(512.0 * Value(b)).Floor)
  {
    hide Scale, Value, Sign, Finite, Ratio, Rounded;
    ScaleValues();
    ValueNonNegative(b);
    SmallestNormal();
    var a := Value(b);
    assert a * 512.0 == 512.0 * a;
    if a == 0.0 {
      FloorTiny(0.0);
    } else if Scale(-9) <= a {
      var e := FloorLog(a, -9);
      if e > -6 { ScaleIncreases(-6, e); }
    }
  }

  lemma {:induction false} SmallestNormal()
    ensures Scale(-6) == 8.0 / 512.0
  {
    ScaleValues();
    hide Scale, Pow2;
    ScaleAdd(-9, 3);
    PowThree();
  }

  /** The encoder's exponent and mantissa before rounding.  The mantissa is a multiple of 2^-20, so its sum with 0.5 is
      exact. */
  lemma {:induction false} EncodedNormal(b: u32) returns (exp: nat, x: real)
    requires Finite(b) && Scale(-6) <= Value(b) < 240.0
    ensures 1 <= exp <= 14 && 0.0 <= x < 8.0 && 512.0 * Value(b) == Level(x, Pow2(exp - 1))
    ensures exp * 8 + (x + 0.5).Floor <= LARGEST
    ensures Encode8(PlusHalf, b) - Sign(b) * 0x80 == exp * 8 + (x + 0.5).Floor
  {
    hide Scale, Value, Sign, Finite, Ratio, Level, Pow2, Rounded;
    ScaleValues();
    SmallestNormal();
    var a := Value(b);
    var e := FloorLog(a, -9);
    if e < -6 { NotBelowNormal(a, e); }
    MiddleLevel(a, e);
    exp, x := e + 7, (Ratio(a, Scale(e)) - 1.0) * 8.0;
    MantissaGrid(b, e, x);
    ExactMultiple(x + 0.5, Mant(b) + 0x8_0000);
    NoOverflow(a, exp, x);
  }

  /** A normal float lies between its power of two and the next. */
  lemma {:induction false} FieldRange(b: u32)
    requires 0 < Field(b) < 255
    ensures Scale(Field(b) - 127) <= Value(b) < Scale(Field(b) - 126)
  {
    hide Scale, Value, Field, Mant, Pow2;
    NormalValue(b);
    SmallPowers();
    var e := Field(b) - 150;
    assert Scale(e + 23) == Scale(e) * 8388608.0 by { ScaleAdd(e, 23); }
    assert Scale(e + 24) == Scale(e) * 16777216.0 by { ScaleAdd(e, 24); }
    var m := (0x80_0000 + Mant(b)) as real;
    ProductAtLeast(8388608.0, m, Scale(e), Scale(e + 23), Value(b));
    ProductBelow(m, 16777216.0, Scale(e), Value(b), Scale(e + 24));
  }

  lemma {:induction false} ProductAtLeast(a: real, m: real, s: real, lo: real, v: real)
    requires s > 0.0 && a <= m && lo == s * a && v == m * s
    ensures lo <= v
  {
    assert (m - a) * s >= 0.0;
  }

  lemma {:induction false} ProductBelow(m: real, b: real, s: real, v: real, hi: real)
    requires s > 0.0 && m < b && v == m * s && hi == s * b
    ensures v < hi
  {
    assert (b - m) * s > 0.0;
  }

  lemma {:induction false} SubnormalFloat(b: u32)
    requires Field(b) == 0
    ensures Value(b) < Scale(-126)
  {
    hide Scale, Field, Mant, Pow2, Value;
    SubnormalValue(b);
    SmallPowers();
    ScaleAdd(-149, 23);
    CompareReals(Mant(b) as real, 8388608.0, Scale(-149));
  }

  lemma {:induction false} SubnormalValue(b: u32)
    requires Field(b) == 0
    ensures Value(b) == Mant(b) as real * Scale(-149)
  {
    hide Scale, Field, Mant;
  }

  /** The mantissa of the encoder is that of the float. */
  lemma {:induction false} MantissaGrid(b: u32, e: int, x: real)
    requires Finite(b) && -6 <= e && Scale(e) <= Value(b) < Scale(e + 1) && 512.0 * Value(b) == Level(x, Pow2(e + 6))
    ensures x * 1048576.0 == Mant(b) as real
  {
    hide Scale, Value, Field, Mant, Pow2, Level;
    NormalField(b, e);
    NormalValue(b);
    var m, s := (0x80_0000 + Mant(b)) as real, Scale(e - 23);
    assert Value(b) == m * s;
    EighthOfScale(e);
    SmallPowers();
    ScaleAdd(e - 23, 23);
    LevelGrid(m, s, x, Pow2(e + 6));
  }

  lemma {:induction false} NormalField(b: u32, e: int)
    requires Finite(b) && -6 <= e && Scale(e) <= Value(b) < Scale(e + 1)
    ensures 0 < Field(b) < 255 && e == Field(b) - 127
  {
    hide Scale, Value, Field;
    if Field(b) == 0 {
      SubnormalFloat(b);
      ScaleIncreases(-126, e);
    } else {
      FieldRange(b);
      FloorLogUnique(Value(b), e, Field(b) - 127);
    }
  }

  lemma {:induction false} LevelGrid(m: real, s: real, x: real, p: nat)
    requires s > 0.0 && 512.0 * (m * s) == Level(x, p) && 8.0 * p as real == 512.0 * (s * 8388608.0)
    ensures x * 1048576.0 == m - 8388608.0
  {
    assert p as real == 512.0 * s * 1048576.0;
    assert (8.0 + x) * p as real == 512.0 * (((8.0 + x) * 1048576.0) * s);
    CancelScale(m, (8.0 + x) * 1048576.0, s);
  }

  // ---------- The sum below the normal range ----------

  /** The values of 2^-25 up to 2^-21, which are the steps of floats from 1/4 up to 8. */
  lemma {:induction false} StepScales()
    ensures Scale(-25) == 1.0 / 33554432.0 && Scale(-23) == 1.0 / 8388608.0
    ensures Scale(-22) == 1.0 / 4194304.0 && Scale(-21) == 1.0 / 2097152.0
  {
    ScaleValues();
    hide Scale, Pow2;
    SmallPowers();
    ScaleAdd(-20, 20);
    ScaleDouble(-21);
    ScaleDouble(-22);
    ScaleDouble(-23);
    ScaleDouble(-24);
    ScaleDouble(-25);
  }

  /** 512 times a normal float is its mantissa in steps of 2^(field - 141). */
  lemma {:induction false} StepsOfFloat(b: u32)
    requires 0 < Field(b) < 255
    ensures 512.0 * Value(b) == (0x80_0000 + Mant(b)) as real * Scale(Field(b) - 141)
  {
    hide Scale, Value, Field, Mant, Pow2;
    NormalValue(b);
    ScaleAdd(Field(b) - 150, 9);
    PowNine();
    FiveTwelve((0x80_0000 + Mant(b)) as real, Scale(Field(b) - 150));
  }

  lemma {:induction false} FiveTwelve(m: real, s: real)
    ensures 512.0 * (m * s) == m * (s * 512.0)
  {
  }

  /** Below the normal range the float sum keeps the integer below it, except at one float. */
  lemma {:induction false} SumFloor(b: u32)
    requires Finite(b) && Value(b) < Scale(-6) && 512.0 * Value(b) != TIE
    ensures PlusHalf(512.0 * Value(b)).Floor == (512.0 * Value(b) + 0.5).Floor
  {
    hide Scale, Value, Field, Mant, PlusHalf;
    var y, f, m := 512.0 * Value(b), Field(b), 0x80_0000 + Mant(b);
    ValueNonNegative(b);
    SmallFields(b);
    if f < 116 {
      FloorTiny(y);
    } else {
      StepsOfFloat(b);
      StepScales();
      if f == 116 {
        FloorBelowHalf(y, m);
      } else if f == 117 {
        FloorAboveHalf(y);
      } else if f == 118 {
        FloorFromOne(y, m);
      } else if f == 119 {
        FloorFromTwo(y, m);
      } else {
        FloorFromFour(y, m);
      }
    }
  }

  lemma {:induction false} SmallFields(b: u32)
    requires Finite(b) && Value(b) < Scale(-6)
    ensures Field(b) <= 120
    ensures Field(b) < 116 ==> 512.0 * Value(b) < 0.25
    ensures Field(b) == 117 ==> 0.5 <= 512.0 * Value(b) < 1.0
  {
    hide Scale, Value, Field, Mant;
    var f := Field(b);
    QuarterAndHalf();
    if f == 0 {
      SubnormalFloat(b);
      ScaleIncreases(-126, -11);
    } else {
      FieldRange(b);
      if f > 121 { ScaleIncreases(-6, f - 127); }
      if f < 115 { ScaleIncreases(f - 126, -11); }
    }
  }

  lemma {:induction false} QuarterAndHalf()
    ensures Scale(-11) == 0.25 / 512.0 && Scale(-10) == 0.5 / 512.0 && Scale(-9) == 1.0 / 512.0
  {
    ScaleValues();
    hide Scale;
    ScaleDouble(-10);
    ScaleDouble(-11);
  }

  lemma {:induction false} NotBelowNormal(a: real, e: int)
    requires Scale(-6) <= a < Scale(e + 1)
    ensures e >= -6
  {
    hide Scale;
    if e + 1 < -6 { ScaleIncreases(e + 1, -6); }
  }

  lemma {:induction false} NoOverflow(a: real, exp: nat, x: real)
    requires 1 <= exp <= 14 && 0.0 <= x < 8.0 && a < 240.0 && 512.0 * a == Level(x, Pow2(exp - 1))
    ensures exp * 8 + (x + 0.5).Floor <= LARGEST
  {
    hide Pow2;
    SmallPowers();
    if exp == 14 {
      hide Level;
      LevelAtTop(x);
    }
  }

  lemma {:induction false} LevelAtTop(x: real)
    ensures Level(x, 0x2000) == (8.0 + x) * 8192.0
  {
  }

  lemma {:induction false} ValueNonNegative(b: u32)
    requires Finite(b)
    ensures Value(b) >= 0.0
  {
    hide Scale, Magnitude;
    CompareReals(0.0, Magnitude(b) as real, Scale(-149));
  }

  lemma {:induction false} MiddleLevel(a: real, e: int)
    requires -6 <= e && Scale(e) <= a < Scale(e + 1)
    ensures var x := (Ratio(a, Scale(e)) - 1.0) * 8.0;
      0.0 <= x < 8.0 && 512.0 * a == Level(x, Pow2(e + 6))
  {
    hide Scale, Pow2, Ratio, Level;
    ScaleDouble(e);
    QuotientRange(a, Scale(e));
    EighthOfScale(e);
    RatioProduct(a, Scale(e));
    LevelOfRatio(a, Ratio(a, Scale(e)), Scale(e), Pow2(e + 6));
  }

  lemma {:induction false} RatioProduct(a: real, s: real)
    requires s > 0.0
    ensures Ratio(a, s) * s == a
  {
  }

  lemma {:induction false} LevelOfRatio(a: real, q: real, s: real, p: nat)
    requires q * s == a && 512.0 * s == 8.0 * p as real
    ensures 512.0 * a == Level((q - 1.0) * 8.0, p)
  {
    assert 512.0 * a == q * (512.0 * s);
  }

  lemma {:induction false} EighthOfScale(e: int)
    requires -6 <= e
    ensures 512.0 * Scale(e) == 8.0 * Pow2(e + 6) as real
  {
    ScaleValues();
    hide Scale, Pow2;
    ScaleAdd(0, e + 6);
    ScaleAdd(-6, e + 6);
    assert Scale(-6) == 8.0 / 512.0 by { ScaleAdd(-9, 3); PowThree(); }
  }

  /** Steps counts the values of codes, which are what the receiver decodes (Float8.Decode8Exact). */
  lemma {:induction false} StepsAreValues(exp: nat, mant: nat)
    requires exp <= 14 && mant < 8
    ensures CodeValue(exp, mant) == Steps(exp * 8 + mant) as real / 512.0
  {
    hide Scale, Pow2, Times, Steps;
    ScaleValues();
    if exp == 0 {
      SmallSteps(mant);
      TimesUnit(mant);
    } else {
      StepsAt(exp, mant);
      ScaleAdd(-9, exp - 1);
      TimesPower(8 + mant, Scale(exp - 10), Pow2(exp - 1));
    }
  }

  lemma {:induction false} TimesUnit(k: nat)
    ensures 512.0 * Times(k, 1.0 / 512.0) == k as real
  {
  }

  lemma {:induction false} TimesPower(k: nat, s: real, p: nat)
    requires s == (1.0 / 512.0) * p as real
    ensures 512.0 * Times(k, s) == (k * p) as real
  {
    assert (k * p) as real == k as real * p as real;
  }

  /** The 8-bit encoder picks a nearest code for a finite input if and only if its magnitude does not lie strictly between
      7.5 / 512 and 8 / 512 and is not the largest float below 0.5 / 512. */
  lemma {:induction false} NearestIff(b: u32)
    requires Finite(b)
    ensures Nearest(512.0 * Value(b), Encode8(PlusHalf, b) - Sign(b) * 0x80) <==>
      !(7.5 < 512.0 * Value(b) < 8.0) && 512.0 * Value(b) != TIE
  {
    hide Scale, Value, Sign, Finite, Encode8, PlusHalf, Level, Pow2, Nearest, Clamped;
    SmallestNormal();
    var y := 512.0 * Value(b);
    if Value(b) >= 240.0 {
      EncodedLarge(PlusHalf, b);
      LargestNearest(y);
    } else if Value(b) >= Scale(-6) {
      var exp, x := EncodedNormal(b);
      NormalNearest(exp, x, (x + 0.5).Floor);
    } else {
      EncodedSmall(b);
      if y == TIE {
        TieRoundsUp();
        TieIsNotNearest();
      } else {
        SumFloor(b);
        SubnormalNearest(y);
      }
    }
  }

  lemma {:induction false} TieIsNotNearest()
    ensures Clamped(1.0.Floor) == 1 && !Nearest(TIE, 1)
  {
    SmallSteps(0);
    SmallSteps(1);
    assert !NoNearer(TIE, 1, 0);
  }

  lemma {:induction false} LargestNearest(y: real)
    requires y >= 122880.0
    ensures Nearest(y, LARGEST)
  {
    hide Steps, Nearest, Pow2;
    StepsAt(14, 7);
    SmallPowers();
    StepsIncrease(LARGEST - 1, LARGEST);
    NearestByNeighbours(y, LARGEST);
  }

  /** 7.75 / 512 is encoded as 7 / 512, although 8 / 512 is a code and nearer. */
  lemma {:induction false} ClampExample()
    ensures var b := Float(0, 120, 0x78_0000);
      512.0 * Value(b) == 7.75 && Encode8(PlusHalf, b) == 7 && !Nearest(7.75, 7)
  {
    hide Scale, Value, Encode8, PlusHalf, Float, Sign, Field, Mant, Nearest;
    var b := Float(0, 120, 0x78_0000);
    StepsOfFloat(b);
    StepScales();
    SmallestNormal();
    EncodedSmall(b);
    SumFloor(b);
    SubnormalNearest(7.75);
  }

  lemma {:induction false} TieBits()
    ensures Float(0, 116, 0x7f_ffff) == 0x3a7f_ffff
  {
  }

  /** The float 0x3a7fffff, just below 0.5 / 512, is encoded as 1 / 512, although 0 is nearer. */
  lemma {:induction false} TieExample()
    ensures var b := Float(0, 116, 0x7f_ffff);
      && b == 0x3a7f_ffff && 512.0 * Value(b) == TIE && Encode8(PlusHalf, b) == 1 && !Nearest(TIE, 1)
  {
    hide Scale, Value, Encode8, PlusHalf, Float, Sign, Field, Mant, Nearest;
    var b := Float(0, 116, 0x7f_ffff);
    TieBits();
    StepsOfFloat(b);
    StepScales();
    SmallestNormal();
    EncodedSmall(b);
    TieRoundsUp();
    TieIsNotNearest();
  }
}
