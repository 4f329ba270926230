/** The 16-bit activation codec (distributed.c:818-877): rounding to half precision and the exact way back. */
module Half {
  import opened Words

  type u16 = x: int | 0 <= x < 0x1_0000

  function Pow2(n: nat): (p: nat)
    ensures p > 0
  {
    if n == 0 then 1 else 2 * Pow2(n - 1)
  }

  // ---------- Binary formats ----------

  /** The three fields of a 32-bit float. */
  function Sign(b: u32): nat {
    b / 0x8000_0000
  }

  function Field(b: u32): (f: nat)
    ensures f < 0x100
  {
    b / 0x80_0000 % 0x100
  }

  function Mant(b: u32): (m: nat)
    ensures m < 0x80_0000
  {
    b % 0x80_0000
  }

  function Float(sign: nat, field: nat, mant: nat): (b: u32)
    requires sign < 2 && field < 0x100 && mant < 0x80_0000
    ensures Sign(b) == sign && Field(b) == field && Mant(b) == mant
  {
    sign * 0x8000_0000 + field * 0x80_0000 + mant
  }

  predicate Finite(b: u32) {
    Field(b) != 255
  }

  predicate Nan(b: u32) {
    Field(b) == 255 && Mant(b) != 0
  }

  /** The magnitude of a finite 32-bit float, in units of 2^-149. */
  function Magnitude(b: u32): nat
    requires Finite(b)
  {
    if Field(b) == 0 then Mant(b) else (0x80_0000 + Mant(b)) * Pow2(Field(b) - 1)
  }

  const INFINITY: nat := 0x7c00
  const QUIET_NAN: nat := 0x7e00

  /** The magnitude that the half-precision code c (without sign) stands for, in units of 2^-24.  The code of infinity
      gets the value that follows the largest finite one, which is how section 4.3.1 of IEEE 754-2019 decides when a
      result overflows. */
  function HalfMagnitude(c: nat): nat
    requires c <= INFINITY
  {
    if c < 1024 then c else (1024 + c % 1024) * Pow2(c / 1024 - 1)
  }

  /** The magnitude of a code in units of 2^-24 / unit. */
  function Scaled(c: nat, unit: nat): nat
    requires c <= INFINITY
  {
    HalfMagnitude(c) * unit
  }

  function Distance(a: nat, b: nat): nat {
    if a < b then b - a else a - b
  }

  /** roundTiesToEven: no code is nearer to v, and when another is as near, c is the even one. */
  ghost predicate RoundsTo(v: nat, unit: nat, c: nat) {
    && c <= INFINITY
    && forall d :: 0 <= d <= INFINITY ==> NoNearer(v, unit, c, d)
  }

  ghost predicate NoNearer(v: nat, unit: nat, c: nat, d: nat)
    requires c <= INFINITY && d <= INFINITY
  {
    && Distance(v, Scaled(c, unit)) <= Distance(v, Scaled(d, unit))
    && (d != c && Distance(v, Scaled(c, unit)) == Distance(v, Scaled(d, unit)) ==> c % 2 == 0)
  }

  // ---------- The codec ----------

  function Encode16(b: u32): (h: u16)
  {
    var sign := Sign(b) * 0x8000;
    var exp := Field(b) - 127 + 15;
    var mant := Mant(b);
    if exp <= 0 then
      if exp < -10 then sign
      else sign + RoundShift(0x80_0000 + mant, 14 - exp)
    else if exp >= 31 then
      if Field(b) == 0xff && mant != 0 then sign + QUIET_NAN else sign + INFINITY
    else
      var half := exp * 1024 + mant / 0x2000;
      var round := mant % 0x2000;
      sign + if round > 0x1000 || (round == 0x1000 && half % 2 == 1) then half + 1 else half
  }

  function ShiftRight(m: nat, k: nat): nat {
    if k == 0 then m else ShiftRight(m / 2, k - 1)
  }

  /** The k low bits. */
  function LowBits(m: nat, k: nat): nat {
    if k == 0 then 0 else 2 * LowBits(m / 2, k - 1) + m % 2
  }

  /** A shift right that rounds with the round bit and the sticky bits. */
  function RoundShift(mant: nat, shift: nat): (r: nat)
    requires 14 <= shift && mant < 0x100_0000
    ensures r <= 1024
  {
    ShiftBound(mant, shift);
    var halfMant := ShiftRight(mant, shift);
    var roundBit := ShiftRight(mant, shift - 1) % 2;
    var sticky := LowBits(mant, shift - 1);
    if roundBit == 1 && (sticky != 0 || halfMant % 2 == 1) then halfMant + 1 else halfMant
  }

  lemma {:induction false} ShiftBound(m: nat, k: nat)
    requires 14 <= k && m < 0x100_0000
    ensures ShiftRight(m, k) < 1024
  {
    hide ShiftRight, Pow2, LowBits;
    ShiftParts(m, 14);
    Pow14();
    ShiftSplit(m, 14, k);
    ShiftShrinks(ShiftRight(m, 14), k - 14);
  }

  lemma {:induction false} ShiftSplit(m: nat, a: nat, k: nat)
    requires a <= k
    ensures ShiftRight(m, k) == ShiftRight(ShiftRight(m, a), k - a)
  {
    if a != 0 {
      ShiftSplit(m / 2, a - 1, k - 1);
    }
  }

  lemma {:induction false} ShiftShrinks(m: nat, k: nat)
    ensures ShiftRight(m, k) <= m
  {
    if k != 0 {
      ShiftShrinks(m / 2, k - 1);
    }
  }

  lemma {:induction false} Pow14()
    ensures Pow2(14) == 0x4000
  {
    assert Pow2(7) == 0x80;
    Pow2Add(7, 7);
  }

  /** The shifted-out bits and the shifted number make up the number. */
  lemma {:induction false} ShiftParts(m: nat, k: nat)
    ensures m == ShiftRight(m, k) * Pow2(k) + LowBits(m, k) && LowBits(m, k) < Pow2(k)
  {
    if k != 0 {
      ShiftParts(m / 2, k - 1);
      var q, p := ShiftRight(m, k), Pow2(k - 1);
      assert q * (2 * p) == 2 * (q * p);
    }
  }

  lemma {:induction false} Pow2Add(a: nat, b: nat)
    ensures Pow2(a + b) == Pow2(a) * Pow2(b)
  {
    if b != 0 {
      Pow2Add(a, b - 1);
      assert Pow2(a + b) == 2 * Pow2(a + (b - 1));
      assert 2 * (Pow2(a) * Pow2(b - 1)) == Pow2(a) * (2 * Pow2(b - 1));
    }
  }

  // ---------- Half-precision codes in order ----------

  lemma {:induction false} HalfAt(e: nat, m: nat)
    requires 0 < e && m < 1024 && e * 1024 + m <= INFINITY
    ensures HalfMagnitude(e * 1024 + m) == (1024 + m) * Pow2(e - 1)
  {
    hide Pow2;
    var c := e * 1024 + m;
    assert c / 1024 == e && c % 1024 == m;
  }

  lemma {:induction false} HalfStep(c: nat)
    requires c < INFINITY
    ensures HalfMagnitude(c + 1) == HalfMagnitude(c) + Pow2(if c < 1024 then 0 else c / 1024 - 1)
  {
    hide Pow2, HalfMagnitude;
    PowOne();
    if c < 1024 {
      CodeIsMagnitude(c);
      CodeIsMagnitude(c + 1);
    } else {
      var e, m := c / 1024, c % 1024;
      HalfAt(e, m);
      if m < 1023 {
        HalfAt(e, m + 1);
        Distribute(1024 + m, 1, Pow2(e - 1));
      } else {
        HalfAt(e + 1, 0);
        Pow2Add(1, e - 1);
      }
    }
  }

  lemma {:induction false} HalfIncreases(c: nat, d: nat)
    requires c < d <= INFINITY
    ensures HalfMagnitude(c) < HalfMagnitude(d)
    decreases d
  {
    HalfStep(d - 1);
    hide HalfMagnitude;
    if c < d - 1 {
      HalfIncreases(c, d - 1);
    }
  }

  lemma {:induction false} ScaledIncreases(c: nat, d: nat, unit: nat)
    requires c < d <= INFINITY && unit > 0
    ensures Scaled(c, unit) < Scaled(d, unit)
  {
    HalfIncreases(c, d);
    CompareProducts(HalfMagnitude(c), HalfMagnitude(d), unit);
  }

  // ---------- Rounding ----------

  /** It is enough to look at the midpoints to the two neighbours. */
  lemma {:induction false} NearestByNeighbours(v: nat, unit: nat, c: nat)
    requires c <= INFINITY && unit > 0
    requires c > 0 ==> MidBelow(v, unit, c)
    requires c < INFINITY ==> MidAbove(v, unit, c)
    ensures RoundsTo(v, unit, c)
  {
    forall d | 0 <= d <= INFINITY ensures NoNearer(v, unit, c, d) {
      if d < c {
        ScaledIncreases(d, c, unit);
        if d < c - 1 { ScaledIncreases(d, c - 1, unit); }
      } else if d > c {
        ScaledIncreases(c, d, unit);
        if d > c + 1 { ScaledIncreases(c + 1, d, unit); }
      }
      hide Scaled;
    }
  }

  ghost predicate MidBelow(v: nat, unit: nat, c: nat)
    requires 0 < c <= INFINITY
  {
    var mid := Scaled(c - 1, unit) + Scaled(c, unit);
    mid <= 2 * v && (mid == 2 * v ==> c % 2 == 0)
  }

  ghost predicate MidAbove(v: nat, unit: nat, c: nat)
    requires c < INFINITY
  {
    var mid := Scaled(c, unit) + Scaled(c + 1, unit);
    2 * v <= mid && (2 * v == mid ==> c % 2 == 0)
  }

  /** v lies x above code t, and the next code lies 2 * y above it. */
  lemma {:induction false} RoundOffset(v: nat, unit: nat, t: nat, x: nat, y: nat)
    requires t < INFINITY && unit > 0 && x < 2 * y
    requires v == Scaled(t, unit) + x && Scaled(t + 1, unit) == Scaled(t, unit) + 2 * y
    ensures RoundsTo(v, unit, if x > y || (x == y && t % 2 == 1) then t + 1 else t)
  {
    hide Scaled, RoundsTo;
    if t > 0 { ScaledIncreases(t - 1, t, unit); }
    if t + 1 < INFINITY { ScaledIncreases(t + 1, t + 2, unit); }
    NearestByNeighbours(v, unit, if x > y || (x == y && t % 2 == 1) then t + 1 else t);
  }

  /** The same counted in steps of s: v lies r steps above code t, and the next code 2 * h steps. */
  lemma {:induction false} RoundStep(v: nat, unit: nat, t: nat, r: nat, s: nat, h: nat)
    requires t < INFINITY && unit > 0 && s > 0 && r < 2 * h
    requires v == Scaled(t, unit) + r * s && Scaled(t + 1, unit) == Scaled(t, unit) + 2 * (h * s)
    ensures RoundsTo(v, unit, if r > h || (r == h && t % 2 == 1) then t + 1 else t)
  {
    hide Scaled, RoundsTo;
    CompareProducts(r, h, s);
    CompareProducts(r, 2 * h, s);
    assert (2 * h) * s == 2 * (h * s);
    RoundOffset(v, unit, t, r * s, h * s);
  }

  lemma {:induction false} CompareProducts(a: nat, b: nat, s: nat)
    requires s > 0
    ensures a < b ==> a * s < b * s
    ensures a > b ==> a * s > b * s
  {
    assert b * s - a * s == (b - a) * s;
  }

  function Unit(): nat {
    Pow2(125)
  }

  lemma {:induction false} Pow2Monotone(a: nat, b: nat)
    requires a <= b
    ensures Pow2(a) <= Pow2(b)
  {
    if a < b { Pow2Monotone(a, b - 1); }
  }

  lemma {:induction false} SmallPowers()
    ensures Pow2(10) == 0x400 && Pow2(13) == 0x2000 && Pow2(20) == 0x10_0000 && Pow2(23) == 0x80_0000
    ensures Pow2(24) == 0x100_0000
  {
    Pow2Add(10, 3);
    Pow2Add(10, 10);
    Pow2Add(20, 3);
    Pow2Add(20, 4);
  }

  lemma {:induction false} NormalRounds(exp: nat, mant: nat)
    requires 1 <= exp <= 30 && mant < 0x80_0000
    ensures var half, round := exp * 1024 + mant / 0x2000, mant % 0x2000;
      RoundsTo((0x80_0000 + mant) * Pow2(exp + 111), Unit(),
               if round > 0x1000 || (round == 0x1000 && half % 2 == 1) then half + 1 else half)
  {
    hide Pow2, RoundsTo, Scaled, Unit;
    var q, r, s := mant / 0x2000, mant % 0x2000, Pow2(exp + 111);
    NormalScaled(exp, q);
    SplitMantissa(q, r, s);
    UnitPositive();
    RoundStep((0x80_0000 + mant) * s, Unit(), exp * 1024 + q, r, s, 0x1000);
  }

  /** The code with mantissa q, and the step to the next code, in steps of a 32-bit float with that exponent. */
  lemma {:induction false} NormalScaled(exp: nat, q: nat)
    requires 1 <= exp <= 30 && q < 1024
    ensures var t, s := exp * 1024 + q, Pow2(exp + 111);
      && Scaled(t, Unit()) == (1024 + q) * (0x2000 * s)
      && Scaled(t + 1, Unit()) == Scaled(t, Unit()) + 2 * (0x1000 * s)
  {
    hide Pow2, HalfMagnitude;
    var t, s, low := exp * 1024 + q, Pow2(exp + 111), Pow2(exp - 1);
    assert t / 1024 == exp;
    HalfAt(exp, q);
    HalfStep(t);
    assert low * Unit() == 0x2000 * s by {
      SmallPowers();
      Pow2Add(13, exp + 111);
      Pow2Add(exp - 1, 125);
    }
    ScaleProduct(1024 + q, low, Unit());
    Distribute(HalfMagnitude(t), low, Unit());
  }

  lemma {:induction false} SplitMantissa(q: nat, r: nat, s: nat)
    ensures (0x80_0000 + (q * 0x2000 + r)) * s == (1024 + q) * (0x2000 * s) + r * s
  {
    Distribute((1024 + q) * 0x2000, r, s);
    ScaleProduct(1024 + q, 0x2000, s);
  }

  lemma {:induction false} ScaleProduct(a: nat, b: nat, c: nat)
    ensures a * b * c == a * (b * c)
  {
  }

  lemma {:induction false} Distribute(a: nat, b: nat, c: nat)
    ensures (a + b) * c == a * c + b * c
  {
  }

  /** Rounding with a round bit and sticky bits is rounding in units of 2 * h * s. */
  lemma {:induction false} ShiftRounds(m: nat, t: nat, bit: nat, sticky: nat, h: nat, s: nat, unit: nat)
    requires s > 0 && unit == 2 * (h * s) && t < 1024 && bit < 2 && sticky < h
    requires m == (2 * t + bit) * h + sticky
    ensures RoundsTo(m * s, unit, if bit == 1 && (sticky != 0 || t % 2 == 1) then t + 1 else t)
  {
    hide RoundsTo, Scaled;
    var r := if bit == 1 then h + sticky else sticky;
    assert m * s == t * unit + r * s by { SplitProduct(t, bit, sticky, h, s); }
    ScaledSubnormal(t, unit);
    RoundStep(m * s, unit, t, r, s, h);
  }

  lemma {:induction false} SplitProduct(t: nat, bit: nat, sticky: nat, h: nat, s: nat)
    requires bit < 2
    ensures ((2 * t + bit) * h + sticky) * s == t * (2 * (h * s)) + (if bit == 1 then h + sticky else sticky) * s
  {
    Distribute((2 * t + bit) * h, sticky, s);
    ScaleProduct(2 * t + bit, h, s);
    Distribute(2 * t, bit, h * s);
    Distribute(h, sticky, s);
    ScaleProduct(t, 2, h * s);
  }

  lemma {:induction false} ScaledSubnormal(t: nat, unit: nat)
    requires t < 1024
    ensures Scaled(t, unit) == t * unit && Scaled(t + 1, unit) == t * unit + unit
  {
    hide HalfMagnitude;
    CodeIsMagnitude(t);
    CodeIsMagnitude(t + 1);
    Distribute(t, 1, unit);
  }

  lemma {:induction false} SubnormalRounds(exp: int, mant: nat)
    requires -10 <= exp <= 0 && mant < 0x80_0000
    ensures RoundsTo((0x80_0000 + mant) * Pow2(exp + 111), Unit(), RoundShift(0x80_0000 + mant, 14 - exp))
  {
    hide Pow2, RoundsTo, ShiftRight, LowBits;
    var m, shift, s := 0x80_0000 + mant, 14 - exp, Pow2(exp + 111);
    var h := Pow2(shift - 1);
    Pow2Add(1, shift - 1);
    PowOne();
    Pow2Add(shift, exp + 111);
    ScaleProduct(2, h, s);
    ShiftBound(m, shift);
    ShiftSplit(m, shift - 1, shift);
    ShiftOne(ShiftRight(m, shift - 1));
    ShiftParts(m, shift - 1);
    ShiftRounds(m, ShiftRight(m, shift), ShiftRight(m, shift - 1) % 2, LowBits(m, shift - 1), h, s, Unit());
  }

  lemma {:induction false} ShiftOne(m: nat)
    ensures ShiftRight(m, 1) == m / 2
  {
  }

  lemma {:induction false} PowOne()
    ensures Pow2(1) == 2 && Pow2(0) == 1
  {
  }

  lemma {:induction false} CodeIsMagnitude(c: nat)
    requires c <= 1024
    ensures HalfMagnitude(c) == c
  {
  }

  lemma {:induction false} TinyRounds(v: nat)
    requires 2 * v < Unit()
    ensures RoundsTo(v, Unit(), 0)
  {
    hide Pow2, RoundsTo, Unit;
    CodeIsMagnitude(0);
    CodeIsMagnitude(1);
    NearestByNeighbours(v, Unit(), 0);
  }

  lemma {:induction false} HugeRounds(v: nat)
    requires v >= Scaled(INFINITY, Unit())
    ensures RoundsTo(v, Unit(), INFINITY)
  {
    hide RoundsTo, Scaled, Pow2;
    ScaledIncreases(INFINITY - 1, INFINITY, Unit());
    hide Unit;
    NearestByNeighbours(v, Unit(), INFINITY);
  }

  lemma {:induction false} TinyMagnitude(b: u32)
    requires Field(b) < 102
    ensures 2 * Magnitude(b) < Unit()
  {
    hide Pow2;
    SmallPowers();
    var f := Field(b);
    if f == 0 {
      Pow2Monotone(24, 124);
    } else {
      CompareProducts(0x80_0000 + Mant(b), 0x100_0000, Pow2(f - 1));
      Pow2Add(24, f - 1);
      Pow2Monotone(f + 23, 124);
    }
    PowOne();
    Pow2Add(1, 124);
  }

  lemma {:induction false} HugeMagnitude(b: u32)
    requires 143 <= Field(b) < 255
    ensures Magnitude(b) >= Scaled(INFINITY, Unit())
  {
    hide Pow2;
    SmallPowers();
    var f := Field(b);
    var p := Pow2(f - 1);
    assert Magnitude(b) >= 0x80_0000 * p by { Distribute(0x80_0000, Mant(b), p); }
    Pow2Add(23, f - 1);
    Pow2Monotone(165, f + 22);
    Pow2Add(10, 30);
    Pow2Add(40, 125);
    assert HalfMagnitude(INFINITY) == 1024 * Pow2(30);
  }

  /** The encoder is roundTiesToEven of section 4.3.1 of IEEE 754-2019 on every finite input; infinities and the
      sign are kept and every NaN becomes the quiet one. */
  lemma {:induction false} Encode16Rounds(b: u32)
    ensures Encode16(b) / 0x8000 == Sign(b)
    ensures Finite(b) ==> RoundsTo(Magnitude(b), Unit(), Encode16(b) % 0x8000)
    ensures Field(b) == 255 && Mant(b) == 0 ==> Encode16(b) % 0x8000 == INFINITY
    ensures Nan(b) ==> Encode16(b) % 0x8000 == QUIET_NAN
  {
    hide Pow2, RoundsTo, Unit, Scaled, RoundShift;
    var exp := Field(b) - 112;
    if exp < -10 {
      TinyMagnitude(b);
      TinyRounds(Magnitude(b));
    } else if exp <= 0 {
      SubnormalRounds(exp, Mant(b));
    } else if exp < 31 {
      NormalRounds(exp, Mant(b));
    } else if Finite(b) {
      HugeMagnitude(b);
      HugeRounds(Magnitude(b));
    }
  }

  /** Rounding is a function: the encoder's result is the only one. */
  lemma {:induction false} RoundsToUnique(v: nat, unit: nat, c: nat, d: nat)
    requires unit > 0 && RoundsTo(v, unit, c) && RoundsTo(v, unit, d)
    ensures c == d
  {
    assert c <= INFINITY && d <= INFINITY;
    hide RoundsTo;
    if c < d { NotBoth(v, unit, c, d); }
    if d < c { NotBoth(v, unit, d, c); }
  }

  lemma {:induction false} NotBoth(v: nat, unit: nat, lo: nat, hi: nat)
    requires unit > 0 && lo < hi <= INFINITY
    ensures !(RoundsTo(v, unit, lo) && RoundsTo(v, unit, hi))
  {
    hide Scaled;
    ScaledIncreases(lo, lo + 1, unit);
    if lo + 1 < hi { ScaledIncreases(lo + 1, hi, unit); }
    assert RoundsTo(v, unit, lo) ==> NoNearer(v, unit, lo, lo + 1) && NoNearer(v, unit, lo, hi);
    assert RoundsTo(v, unit, hi) ==> NoNearer(v, unit, hi, lo + 1) && NoNearer(v, unit, hi, lo);
  }

  /** A magnitude that is exactly that of a code rounds to it and to no other. */
  lemma {:induction false} ExactRounds(c: nat, unit: nat, d: nat)
    requires c <= INFINITY && unit > 0 && RoundsTo(Scaled(c, unit), unit, d)
    ensures d == c
  {
    hide Scaled;
    assert NoNearer(Scaled(c, unit), unit, d, c);
    if c < d { ScaledIncreases(c, d, unit); }
    if d < c { ScaledIncreases(d, c, unit); }
  }

  // ---------- The way back ----------

  /** Moves the leading bit of a subnormal mantissa up to bit 10. */
  function Normalize(mant: nat, exp: int): (r: (nat, int))
    requires 0 < mant < 0x800
    decreases 0x800 - mant
  {
    if mant >= 0x400 then (mant, exp) else Normalize(2 * mant, exp - 1)
  }

  function Decode16(h: u16): u32 {
    var sign, exp, mant := h / 0x8000, h / 0x400 % 0x20, h % 0x400;
    if exp == 0 then
      if mant == 0 then Float(sign, 0, 0)
      else
        NormalizeRange(mant, 1);
        var (m, e) := Normalize(mant, 1);
        Float(sign, e + 112, (m - 0x400) * 0x2000)
    else if exp == 31 then Float(sign, 255, mant * 0x2000)
    else Float(sign, exp + 112, mant * 0x2000)
  }

  lemma {:induction false} NormalizeRange(mant: nat, exp: int)
    requires 0 < mant < 0x800
    ensures var (m, e) := Normalize(mant, exp);
      && 0x400 <= m < 0x800 && exp - 10 <= e <= exp
      && m == mant * Pow2(exp - e) && mant * Pow2(exp - e) < 0x800
    decreases 0x800 - mant
  {
    if mant < 0x400 {
      NormalizeRange(2 * mant, exp - 1);
      var (m, e) := Normalize(mant, exp);
      assert Pow2(exp - e) == 2 * Pow2(exp - 1 - e);
      assert mant * (2 * Pow2(exp - 1 - e)) == 2 * mant * Pow2(exp - 1 - e);
      hide Pow2;
      if exp - e > 10 {
        SmallPowers();
        PowOne();
        Pow2Add(10, 1);
        Pow2Monotone(11, exp - e);
        CompareProducts(1, mant, Pow2(exp - e));
      }
    }
  }

  /** The loop that normalizes a subnormal mantissa. */
  method NormalizeMantissa(mant0: nat) returns (mant: nat, exp: int)
    requires 0 < mant0 < 0x400
    ensures (mant, exp) == Normalize(mant0, 1)
  {
    mant, exp := mant0, 1;
    while mant < 0x400
      invariant 0 < mant < 0x800 && Normalize(mant, exp) == Normalize(mant0, 1)
      decreases 0x800 - mant
    {
      mant := 2 * mant;
      exp := exp - 1;
    }
  }

  method DecodeHalf(h: u16) returns (b: u32)
    ensures b == Decode16(h)
  {
    hide Float, Normalize;
    var sign, exp, mant := h / 0x8000, h / 0x400 % 0x20, h % 0x400;
    if exp == 0 {
      if mant == 0 { return Float(sign, 0, 0); }
      NormalizeRange(mant, 1);
      mant, exp := NormalizeMantissa(mant);
      return Float(sign, exp + 112, (mant - 0x400) * 0x2000);
    }
    if exp == 31 { return Float(sign, 255, mant * 0x2000); }
    return Float(sign, exp + 112, mant * 0x2000);
  }

  lemma {:induction false} NormalExact(exp: nat, mant: nat)
    requires 1 <= exp <= 30 && mant < 0x400
    ensures (0x80_0000 + mant * 0x2000) * Pow2(exp + 111) == Scaled(exp * 0x400 + mant, Unit())
  {
    hide Pow2;
    var c, s, low := exp * 0x400 + mant, Pow2(exp + 111), Pow2(exp - 1);
    SmallPowers();
    Pow2Add(13, exp + 111);
    Pow2Add(exp - 1, 125);
    assert c / 1024 == exp && c % 1024 == mant;
    ScaleProduct(1024 + mant, low, Unit());
    ScaleProduct(1024 + mant, 0x2000, s);
  }

  lemma {:induction false} SubnormalExact(mant: nat)
    requires 0 < mant < 0x400
    ensures var (m, e) := Normalize(mant, 1);
      && 0x400 <= m < 0x800 && -9 <= e <= 1
      && (0x80_0000 + (m - 0x400) * 0x2000) * Pow2(e + 111) == Scaled(mant, Unit())
  {
    hide Pow2, Normalize;
    NormalizeRange(mant, 1);
    var (m, e) := Normalize(mant, 1);
    var p, s := Pow2(1 - e), Pow2(e + 111);
    SmallPowers();
    Pow2Add(13, e + 111);
    Pow2Add(1 - e, e + 124);
    ScaleProduct(m, 0x2000, s);
    ScaleProduct(mant, p, 0x2000 * s);
  }

  /** Decoding a finite code is exact. */
  lemma {:induction false} Decode16Exact(h: u16)
    requires h % 0x8000 < INFINITY
    ensures Sign(Decode16(h)) == h / 0x8000 && Finite(Decode16(h))
    ensures Magnitude(Decode16(h)) == Scaled(h % 0x8000, Unit())
  {
    hide Pow2, Scaled, Unit, Normalize, Float, Sign, Field, Mant;
    HalfFields(h);
    var c := h % 0x8000;
    var exp, mant := c / 0x400, c % 0x400;
    if exp != 0 {
      NormalExact(exp, mant);
    } else if mant != 0 {
      SubnormalExact(mant);
    } else {
      ScaledZero(Unit());
    }
  }

  /** The fields of a code do not depend on its sign. */
  lemma {:induction false} HalfFields(h: u16)
    ensures var c := h % 0x8000;
      && h / 0x400 % 0x20 == c / 0x400 && h % 0x400 == c % 0x400 && c / 0x400 * 0x400 + c % 0x400 == c
  {
    if h >= 0x8000 {
      var c := h - 0x8000;
      assert h % 0x8000 == c && h / 0x400 == 0x20 + c / 0x400;
    }
  }

  lemma {:induction false} ScaledZero(unit: nat)
    ensures Scaled(0, unit) == 0
  {
  }

  /** What the encoder can send: a finite code, an infinity or the quiet NaN. */
  predicate Sendable16(h: u16) {
    h % 0x8000 <= INFINITY || h % 0x8000 == QUIET_NAN
  }

  lemma {:induction false} Encode16Sendable(b: u32)
    ensures Sendable16(Encode16(b))
  {
    Encode16Rounds(b);
    hide Encode16, RoundShift, Pow2, Magnitude, Unit, Scaled;
    assert !Finite(b) ==> Nan(b) || Mant(b) == 0;
  }

  lemma {:induction false} Decode16Special(h: u16)
    requires h % 0x8000 >= INFINITY && Sendable16(h)
    ensures var b := Decode16(h);
      && Sign(b) == h / 0x8000 && Field(b) == 255
      && (Mant(b) == 0 <==> h % 0x8000 == INFINITY) && (h % 0x8000 != INFINITY ==> h % 0x8000 == QUIET_NAN)
  {
    hide Normalize, Float, Sign, Field, Mant;
    HalfFields(h);
    assert h % 0x8000 / 0x400 == 31;
  }

  lemma {:induction false} SameCode(a: u16, b: u16)
    requires a / 0x8000 == b / 0x8000 && a % 0x8000 == b % 0x8000
    ensures a == b
  {
  }

  /** Decoding and encoding again gives every sent code back. */
  lemma {:induction false} Encode16Inverse(h: u16)
    requires Sendable16(h)
    ensures Encode16(Decode16(h)) == h
  {
    hide Scaled, RoundsTo, Encode16, Decode16, Magnitude, Unit, Sign, Field, Mant;
    var c, back := h % 0x8000, Encode16(Decode16(h));
    Encode16Rounds(Decode16(h));
    if c < INFINITY {
      Decode16Exact(h);
      UnitPositive();
      ExactRounds(c, Unit(), back % 0x8000);
    } else {
      Decode16Special(h);
    }
    SameCode(back, h);
  }

  lemma {:induction false} UnitPositive()
    ensures Unit() > 0
  {
    hide Pow2;
  }
}
