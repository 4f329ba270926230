/** What the receiver of an activation vector gets: the values themselves at 32 bits, their half-precision roundings at
    16 bits, and nearest 8-bit codes at 8 bits. */
module ActivationMeaning {
  import opened Words
  import opened Half
  import opened Float8
  import opened Float32Sum
  import opened Float8Nearest
  import opened Activation

  /** y is x rounded to half precision: same sign, and for a finite x the magnitude of the code that roundTiesToEven gives,
      or infinity where that overflows. */
  ghost predicate Received16(x: u32, y: u32) {
    && Sign(y) == Sign(x)
    && (Finite(x) ==> exists c :: RoundsTo(Magnitude(x), Unit(), c) && HasHalfMagnitude(y, c))
    && (!Finite(x) && Mant(x) == 0 ==> !Finite(y) && Mant(y) == 0)
    && (Nan(x) ==> Nan(y))
  }

  ghost predicate HasHalfMagnitude(y: u32, c: nat) {
    && c <= INFINITY
    && if c < INFINITY then Finite(y) && Magnitude(y) == Scaled(c, Unit()) else !Finite(y) && Mant(y) == 0
  }

  /** y is the value of an 8-bit code for x: same sign, a nearest code for a finite x outside the two exceptions of
      NearestIff, and 240 for infinities and NaNs. */
  ghost predicate Received8(x: u32, y: u32) {
    && Sign(y) == Sign(x) && Finite(y)
    && exists c :: 0 <= c <= LARGEST && Value(y) == Steps(c) as real / 512.0 && Represents(x, c)
  }

  ghost predicate Represents(x: u32, c: nat) {
    && (Finite(x) && !(7.5 < 512.0 * Value(x) < 8.0) && 512.0 * Value(x) != TIE ==> Nearest(512.0 * Value(x), c))
    && (!Finite(x) ==> c == LARGEST)
  }

  /** The three widths, by the number of bits a sender asks for. */
  ghost predicate Arrives(bits: u32, x: u32, y: u32) {
    && (bits == 0 || bits == 32 ==> y == x)
    && (bits == 16 ==> Received16(x, y))
    && (bits == 8 ==> Received8(x, y))
  }

  // ---------- One value ----------

  /** The bytes of a value, lowest first. */
  lemma {:induction false} BytesOfOne(x: u32)
    ensures var b := EncodeOne(PlusHalf, 4, x);
      b[0] as int + 0x100 * b[1] as int + 0x1_0000 * b[2] as int + 0x100_0000 * b[3] as int == x
    ensures var b := EncodeOne(PlusHalf, 2, x); b[0] as int + 0x100 * b[1] as int == Encode16(x)
    ensures EncodeOne(PlusHalf, 1, x)[0] == Encode8(PlusHalf, x)
  {
    hide Encode16, Encode8, PlusHalf, Le32;
    Le32Value(x);
    PlusHalfIsFloatSum();
    Encode8Range(PlusHalf, x);
  }

  lemma {:induction false} OneArrives16(x: u32)
    ensures Received16(x, Decode16(Encode16(x)))
  {
    hide Encode16, Decode16, RoundsTo, Magnitude, Unit, Scaled, Sign, Field, Mant;
    var h := Encode16(x);
    Encode16Rounds(x);
    Encode16Sendable(x);
    var c := h % 0x8000;
    if c < INFINITY {
      Decode16Exact(h);
    } else {
      Decode16Special(h);
    }
    CodeBelow(x, c);
    assert Finite(x) ==> HasHalfMagnitude(Decode16(h), c);
  }

  lemma {:induction false} CodeBelow(x: u32, c: nat)
    ensures Finite(x) && RoundsTo(Magnitude(x), Unit(), c) ==> c <= INFINITY
  {
    hide Magnitude, Unit, Scaled;
  }

  lemma {:induction false} OneArrives8(x: u32)
    ensures 0 <= Encode8(PlusHalf, x) < 0x100 && Received8(x, Decode8(Encode8(PlusHalf, x)))
  {
    hide Encode8, Decode8, PlusHalf, Nearest, Value, Sign, Finite, Steps, CodeValue, Scale;
    PlusHalfIsFloatSum();
    Encode8Range(PlusHalf, x);
    var code := Encode8(PlusHalf, x);
    Decode8Exact(code);
    var c := code % 0x80;
    CodeFields(code);
    StepsAreValues(c / 8, c % 8);
    if Finite(x) {
      NearestIff(x);
    } else {
      NotFinite(x);
    }
    assert Represents(x, c);
  }

  lemma {:induction false} CodeFields(code: u8)
    requires code % 0x80 <= LARGEST
    ensures var c := code % 0x80;
      && code / 8 % 16 == c / 8 && code % 8 == c % 8 && c / 8 <= 14 && c / 8 * 8 + c % 8 == c
      && c == code - code / 0x80 * 0x80
  {
    var c := if code >= 0x80 then code - 0x80 else code;
    assert code % 0x80 == c;
    EighthsOf(c);
  }

  lemma {:induction false} EighthsOf(c: nat)
    requires c < 0x80
    ensures (0x80 + c) / 8 == 16 + c / 8 && (0x80 + c) % 8 == c % 8 && c / 8 < 16 && c / 8 * 8 + c % 8 == c
  {
  }

  lemma {:induction false} NotFinite(x: u32)
    requires !Finite(x)
    ensures Encode8(PlusHalf, x) == Sign(x) * 0x80 + LARGEST
  {
    hide Finite, Sign;
  }

  // ---------- Vectors ----------

  lemma {:induction false} ElementArrives(w: nat, bits: u32, x: u32)
    requires Width(bits) == Some(w)
    ensures Arrives(bits, x, DecodeOne(w, EncodeOne(PlusHalf, w, x)))
  {
    hide Encode16, Decode16, Encode8, Decode8, PlusHalf, Le32, FromLe32, Received16, Received8;
    if w == 4 {
      Le32Inverse(x);
    } else if w == 2 {
      OneArrives16(x);
      var h := Encode16(x);
      assert h % 0x100 + 0x100 * (h / 0x100) == h;
    } else {
      OneArrives8(x);
    }
  }

  lemma {:induction false} ElementsArrive(w: nat, xs: seq<u32>, i: nat)
    requires (w == 1 || w == 2 || w == 4) && i < |xs|
    ensures |xs| * w <= |EncodeVector(PlusHalf, w, xs)|
    ensures Elements(w, EncodeVector(PlusHalf, w, xs), |xs|)[i] == DecodeOne(w, EncodeOne(PlusHalf, w, xs[i]))
  {
    hide EncodeOne, DecodeOne, EncodeVector, Elements;
    var n := |xs| - 1;
    var front, one := EncodeVector(PlusHalf, w, xs[..n]), EncodeOne(PlusHalf, w, xs[n]);
    assert xs[..n] + [xs[n]] == xs;
    EncodeSnoc(PlusHalf, w, xs[..n], xs[n]);
    MulComm(w, n);
    ElementsSnoc(w, front, one, n);
    if i < n {
      ElementsArrive(w, xs[..n], i);
    }
  }

  lemma {:induction false} MulComm(a: nat, b: nat)
    ensures a * b == b * a
  {
  }

  /** A sent vector arrives value by value, when its floats fit a 32-bit byte count. */
  lemma {:induction false} VectorArrives(bits: u32, xs: seq<u32>)
    requires Width(bits).Some? && 4 * |xs| < U32_LIMIT
    ensures var ys := DecodeVector(bits, EncodeVector(PlusHalf, Width(bits).value, xs));
      && ys.Some? && |ys.value| == |xs|
      && forall i :: 0 <= i < |xs| ==> Arrives(bits, xs[i], ys.value[i])
  {
    hide EncodeVector, Elements, Arrives, PlusHalf, EncodeOne, DecodeOne;
    var w := Width(bits).value;
    var wire := EncodeVector(PlusHalf, w, xs);
    MulComm(w, |xs|);
    WholeValues(|xs|, w);
    forall i | 0 <= i < |xs| ensures Arrives(bits, xs[i], Elements(w, wire, |xs|)[i]) {
      ElementsArrive(w, xs, i);
      ElementArrives(w, bits, xs[i]);
    }
  }
}
