/** The sum x + 0.5f of the 8-bit encoder in binary32 arithmetic: roundTiesToEven to 24 significant bits.  The product
    a * 512.0f before it is exact, so this is the one rounding of the encoder, fused or not. */
module Float32Sum {
  import opened Words
  import opened Float8

  /** Section 4.3.1 of IEEE 754-2019 for integers: the nearest one, and of two the even one. */
  function RoundEven(r: real): (n: int)
    ensures -0.5 <= n as real - r <= 0.5
    ensures n as real - r == 0.5 || r - n as real == 0.5 ==> n % 2 == 0
  {
    var f := r.Floor;
    var d := r - f as real;
    if d < 0.5 || (d == 0.5 && f % 2 == 0) then f else f + 1
  }

  /** Floats per unit around s: 2^23 divided by the power of two below s. */
  function Density(s: real): (n: int)
    ensures n > 0
  {
    if s < 1.0 then 0x100_0000
    else if s < 2.0 then 0x80_0000
    else if s < 4.0 then 0x40_0000
    else if s < 8.0 then 0x20_0000
    else 0x10_0000
  }

  predicate InRange(s: real) {
    0.5 <= s < 16.0
  }

  /** The float that the exact sum s rounds to.  The encoder's sums lie in this range; elsewhere s stands for itself. */
  function Rounded(s: real): real {
    if InRange(s) then OnGrid(s, Density(s)) else s
  }

  /** The nearest multiple of 1/n, ties to the even one. */
  function OnGrid(s: real, n: int): real
    requires n > 0
  {
    Ratio(RoundEven(Product(s, n)) as real, n as real)
  }

  function Product(s: real, n: int): real {
    s * n as real
  }

  function PlusHalf(x: real): real {
    Rounded(x + 0.5)
  }

  // ---------- Rounding ----------

  lemma {:induction false} RoundEvenMonotone(a: real, b: real)
    requires a <= b
    ensures RoundEven(a) <= RoundEven(b)
  {
  }

  lemma {:induction false} RoundEvenBetween(r: real, lo: int, hi: int)
    requires lo as real <= r <= hi as real
    ensures lo <= RoundEven(r) <= hi
  {
  }

  lemma {:induction false} GridBetween(s: real, n: int, lo: int, hi: int)
    requires n > 0 && lo as real <= Product(s, n) <= hi as real
    ensures Ratio(lo as real, n as real) <= OnGrid(s, n) <= Ratio(hi as real, n as real)
  {
    hide RoundEven, Ratio, Product;
    var r := RoundEven(Product(s, n));
    RoundEvenBetween(Product(s, n), lo, hi);
    QuotientMonotone(lo as real, r as real, n as real);
    QuotientMonotone(r as real, hi as real, n as real);
  }

  /** Rounding does not leave the floats below and above. */
  lemma {:induction false} Between(s: real, n: int, lo: int, hi: int)
    requires InRange(s) && Density(s) == n && lo as real <= Product(s, n) <= hi as real
    ensures Ratio(lo as real, n as real) <= Rounded(s) <= Ratio(hi as real, n as real)
  {
    hide OnGrid, Ratio;
    GridBetween(s, n, lo, hi);
  }

  lemma {:induction false} QuotientMonotone(a: real, b: real, n: real)
    requires n > 0.0 && a <= b
    ensures Ratio(a, n) <= Ratio(b, n)
  {
    var p, q := Ratio(a, n), Ratio(b, n);
    assert p * n == a && q * n == b;
    CompareReals(q, p, n);
  }

  lemma {:induction false} GridExact(s: real, n: int, k: int)
    requires n > 0 && Product(s, n) == k as real
    ensures OnGrid(s, n) == s
  {
    hide RoundEven, Ratio, Product;
    RoundEvenBetween(Product(s, n), k, k);
    QuotientOfProduct(s, n);
  }

  /** A float rounds to itself. */
  lemma {:induction false} Exact(s: real, n: int, k: int)
    requires InRange(s) && Density(s) == n && Product(s, n) == k as real
    ensures Rounded(s) == s
  {
    hide OnGrid;
    GridExact(s, n, k);
  }

  lemma {:induction false} QuotientOfProduct(s: real, n: int)
    requires n > 0
    ensures Ratio(Product(s, n), n as real) == s
  {
  }

  /** Every multiple of 2^-20 in range is a float. */
  lemma {:induction false} ExactMultiple(s: real, k: int)
    requires InRange(s) && s * 1048576.0 == k as real
    ensures Rounded(s) == s
  {
    hide Rounded, RoundEven;
    if s < 1.0 {
      Exact(s, 0x100_0000, 16 * k);
    } else if s < 2.0 {
      Exact(s, 0x80_0000, 8 * k);
    } else if s < 4.0 {
      Exact(s, 0x40_0000, 4 * k);
    } else if s < 8.0 {
      Exact(s, 0x20_0000, 2 * k);
    } else {
      Exact(s, 0x10_0000, k);
    }
  }

  // ---------- The sum is what the codec laws ask for ----------

  lemma {:induction false} RoundedMonotone(s: real, t: real)
    requires s <= t
    ensures Rounded(s) <= Rounded(t)
  {
    hide Rounded, RoundEven;
    if InRange(s) && InRange(t) && Density(s) == Density(t) {
      SameBinade(s, t);
    } else if !InRange(s) && !InRange(t) {
      Outside(s);
      Outside(t);
    } else if s < 0.5 {
      Outside(s);
      AtLeast(t, 0.5);
    } else if t >= 16.0 {
      Outside(t);
      AtMost(s, 16.0);
    } else {
      var mid := if s < 1.0 then 1.0 else if s < 2.0 then 2.0 else if s < 4.0 then 4.0 else 8.0;
      AtMost(s, mid);
      AtLeast(t, mid);
    }
  }

  lemma {:induction false} Outside(s: real)
    requires !InRange(s)
    ensures Rounded(s) == s
  {
  }

  lemma {:induction false} SameBinade(s: real, t: real)
    requires s <= t && InRange(s) && InRange(t) && Density(s) == Density(t)
    ensures Rounded(s) <= Rounded(t)
  {
    hide OnGrid;
    GridMonotone(s, t, Density(s));
  }

  lemma {:induction false} ProductMonotone(s: real, t: real, n: int)
    requires n > 0 && s <= t
    ensures Product(s, n) <= Product(t, n)
  {
    CompareReals(s, t, n as real);
  }

  lemma {:induction false} GridMonotone(s: real, t: real, n: int)
    requires n > 0 && s <= t
    ensures OnGrid(s, n) <= OnGrid(t, n)
  {
    hide RoundEven, Ratio, Product;
    ProductMonotone(s, t, n);
    RoundEvenMonotone(Product(s, n), Product(t, n));
    QuotientMonotone(RoundEven(Product(s, n)) as real, RoundEven(Product(t, n)) as real, n as real);
  }

  /** Rounding does not cross a power of two. */
  lemma {:induction false} AtMost(s: real, p: real)
    requires p == 1.0 || p == 2.0 || p == 4.0 || p == 8.0 || p == 16.0
    requires 0.5 <= s < p
    ensures Rounded(s) <= p
  {
    hide Rounded, RoundEven;
    if s < 1.0 {
      Between(s, 0x100_0000, 0x80_0000, 0x100_0000);
    } else if s < 2.0 {
      Between(s, 0x80_0000, 0x80_0000, 0x100_0000);
    } else if s < 4.0 {
      Between(s, 0x40_0000, 0x80_0000, 0x100_0000);
    } else if s < 8.0 {
      Between(s, 0x20_0000, 0x80_0000, 0x100_0000);
    } else {
      Between(s, 0x10_0000, 0x80_0000, 0x100_0000);
    }
  }

  lemma {:induction false} AtLeast(s: real, p: real)
    requires p == 0.5 || p == 1.0 || p == 2.0 || p == 4.0 || p == 8.0
    requires p <= s
    ensures p <= Rounded(s)
  {
    hide Rounded, RoundEven;
    if s >= 16.0 {
      Outside(s);
    } else if s < 1.0 {
      Between(s, 0x100_0000, 0x80_0000, 0x100_0000);
    } else if s < 2.0 {
      Between(s, 0x80_0000, 0x80_0000, 0x100_0000);
    } else if s < 4.0 {
      Between(s, 0x40_0000, 0x80_0000, 0x100_0000);
    } else if s < 8.0 {
      Between(s, 0x20_0000, 0x80_0000, 0x100_0000);
    } else {
      Between(s, 0x10_0000, 0x80_0000, 0x100_0000);
    }
  }

  /** The float sum is monotone and exact on small integers, so the laws of Float8 hold for it. */
  lemma {:induction false} PlusHalfIsFloatSum()
    ensures FloatSum(PlusHalf)
  {
    hide Rounded;
    forall x, y | x <= y ensures PlusHalf(x) <= PlusHalf(y) {
      RoundedMonotone(x + 0.5, y + 0.5);
    }
    forall x | 0.0 <= x <= 8.0 && x.Floor as real == x ensures PlusHalf(x) == x + 0.5 {
      ExactMultiple(x + 0.5, 1048576 * x.Floor + 524288);
    }
  }

  // ---------- Where the sum changes the integer below it ----------

  /** The largest float below one half: its sum with 0.5 lies halfway between two floats, and the even one is 1. */
  const TIE: real := 0.5 - 1.0 / 33554432.0

  lemma {:induction false} TieRoundsUp()
    ensures PlusHalf(TIE) == 1.0
  {
    var s := TIE + 0.5;
    assert s * 16777216.0 == 16777215.5;
    assert RoundEven(16777215.5) == 16777216;
  }

  /** y is a float with 24 significant bits: m steps of the given size. */
  lemma {:induction false} FloorBelowHalf(y: real, m: int)
    requires y == m as real / 33554432.0 && 0x80_0000 <= m < 0xff_ffff
    ensures PlusHalf(y).Floor == (y + 0.5).Floor
  {
    hide Rounded;
    Between(y + 0.5, 0x100_0000, 0x80_0000, 0xff_ffff);
  }

  lemma {:induction false} FloorTiny(y: real)
    requires 0.0 <= y < 0.25
    ensures PlusHalf(y).Floor == (y + 0.5).Floor
  {
    hide Rounded;
    Between(y + 0.5, 0x100_0000, 0x80_0000, 0xc0_0000);
  }

  lemma {:induction false} FloorAboveHalf(y: real)
    requires 0.5 <= y < 1.0
    ensures PlusHalf(y).Floor == (y + 0.5).Floor
  {
    hide Rounded;
    Between(y + 0.5, 0x80_0000, 0x80_0000, 0xc0_0000);
  }

  lemma {:induction false} FloorFromOne(y: real, m: int)
    requires y == m as real / 8388608.0 && 0x80_0000 <= m < 0x100_0000
    ensures PlusHalf(y).Floor == (y + 0.5).Floor
  {
    hide Rounded;
    if y < 1.5 {
      Exact(y + 0.5, 0x80_0000, m + 0x40_0000);
    } else {
      Between(y + 0.5, 0x40_0000, 0x80_0000, 0xa0_0000);
    }
  }

  lemma {:induction false} FloorFromTwo(y: real, m: int)
    requires y == m as real / 4194304.0 && 0x80_0000 <= m < 0x100_0000
    ensures PlusHalf(y).Floor == (y + 0.5).Floor
  {
    hide Rounded;
    if y < 3.5 {
      Exact(y + 0.5, 0x40_0000, m + 0x20_0000);
    } else {
      Between(y + 0.5, 0x20_0000, 0x80_0000, 0x90_0000);
    }
  }

  lemma {:induction false} FloorFromFour(y: real, m: int)
    requires y == m as real / 2097152.0 && 0x80_0000 <= m < 0x100_0000
    ensures PlusHalf(y).Floor == (y + 0.5).Floor
  {
    hide Rounded;
    if y < 7.5 {
      Exact(y + 0.5, 0x20_0000, m + 0x10_0000);
    } else {
      Between(y + 0.5, 0x10_0000, 0x80_0000, 0x88_0000);
    }
  }
}
