/** The numeric side of the TM2 compiler: the fixed-width integer types of its records, the
    conversion of an `i64` buffer size to `f32`, the saturating `f32 as i32` cast, and the
    decimal text Rust's `{}` formatting gives integers and (exactly representable) floats. */
module Numeric {

  const TwoTo24: int := 0x100_0000

  type I64 = x: int | -0x8000_0000_0000_0000 <= x < 0x8000_0000_0000_0000
  type I32 = x: int | -0x8000_0000 <= x < 0x8000_0000

  // ---------------------------------------------------------------------------
  // i64 -> f32 (round to nearest, ties to even; 24-bit significand)

  /** The spacing of `f32` values around a magnitude `m` of at least `u`: the least power
      of two `v >= u` with `m < 2^24 * v`. */
  function UlpFrom(m: nat, u: nat): (v: nat)
    requires u >= 1
    ensures v >= u && m < TwoTo24 * v
    ensures v == u || TwoTo24 * v <= 2 * m
    decreases m - u
  {
    if m < TwoTo24 * u then u else UlpFrom(m, 2 * u)
  }

  /** The distance between neighbouring `f32` values at magnitude `m` (1 up to 2^24). */
  function Ulp(m: nat): (v: nat)
    ensures v >= 1 && m < TwoTo24 * v
  {
    UlpFrom(m, 1)
  }

  /** The significand (in units of `Ulp(m)`) of the `f32` nearest to the magnitude `m`,
      ties going to the even significand. */
  function RoundedSignificand(m: nat): nat {
    var u := Ulp(m);
    var q, r := m / u, m % u;
    if 2 * r > u || (2 * r == u && q % 2 == 1) then q + 1 else q
  }

  /** The `f32` nearest to the magnitude `m`. */
  function RoundMagnitude(m: nat): nat {
    RoundedSignificand(m) * Ulp(m)
  }

  /** `n as f32` for an integer `n`, as the integer value of the resulting float
      (symmetric: the sign does not affect rounding). */
  function RoundToF32(n: int): int {
    if n < 0 then -(RoundMagnitude(-n) as int) else RoundMagnitude(n)
  }

  lemma DivBelow(m: nat, u: nat)
    requires u >= 1 && m < TwoTo24 * u
    ensures m / u < TwoTo24
  {
    var q, r := m / u, m % u;
    assert m == q * u + r && 0 <= r < u;
    assert (TwoTo24 - q) * u > 0;
  }

  lemma RoundStep(m: nat, u: nat, q: nat, r: nat, k: nat)
    requires u >= 1 && m == q * u + r && r < u
    requires k == if 2 * r > u || (2 * r == u && q % 2 == 1) then q + 1 else q
    ensures 2 * (m - k * u) <= u && 2 * (k * u - m) <= u
    ensures 2 * r != u ==> 2 * (m - k * u) < u && 2 * (k * u - m) < u
  {
    assert (q + 1) * u == q * u + u;
  }

  /** The rounded value is a 24-bit significand times the spacing, and lies within half a
      spacing of the input: it is a nearest `f32`. Off a tie it is the only nearest one;
      on a tie (the input halfway between two neighbours) the significand is even. */
  lemma RoundMagnitudeNearest(m: nat)
    ensures RoundedSignificand(m) <= TwoTo24
    ensures 2 * (m - RoundMagnitude(m)) <= Ulp(m) && 2 * (RoundMagnitude(m) - m) <= Ulp(m)
    ensures 2 * (m % Ulp(m)) != Ulp(m) ==>
      2 * (m - RoundMagnitude(m)) < Ulp(m) && 2 * (RoundMagnitude(m) - m) < Ulp(m)
    ensures 2 * (m % Ulp(m)) == Ulp(m) ==> RoundedSignificand(m) % 2 == 0
  {
    var u := Ulp(m);
    DivBelow(m, u);
    RoundStep(m, u, m / u, m % u, RoundedSignificand(m));
  }

  /** Magnitudes up to 2^24 are exactly representable. */
  lemma RoundToF32Exact(n: int)
    requires -TwoTo24 <= n <= TwoTo24
    ensures RoundToF32(n) == n
  {
    var m := if n < 0 then -n else n;
    if m < TwoTo24 {
      assert Ulp(m) == 1;
      assert RoundedSignificand(m) == m;
    } else {
      assert UlpFrom(m, 1) == UlpFrom(m, 2) == 2;
      assert RoundedSignificand(m) == m / 2;
    }
  }

  /** Below `2^24 * 16` the spacing is at most 16. */
  lemma UlpAtMost16(m: nat)
    requires m < TwoTo24 * 16
    ensures Ulp(m) <= 16
  {
    if m >= TwoTo24 {
      assert UlpFrom(m, 1) == UlpFrom(m, 2);
      if m >= TwoTo24 * 2 {
        assert UlpFrom(m, 2) == UlpFrom(m, 4);
        if m >= TwoTo24 * 4 {
          assert UlpFrom(m, 4) == UlpFrom(m, 8);
          if m >= TwoTo24 * 8 {
            assert UlpFrom(m, 8) == UlpFrom(m, 16) == 16;
          }
        }
      }
    }
  }

  /** From `2^24 * 16` on the spacing is at least 32. */
  lemma UlpAtLeast32(m: nat)
    requires m >= TwoTo24 * 16
    ensures Ulp(m) >= 32 && TwoTo24 * Ulp(m) <= 2 * m
  {
    assert UlpFrom(m, 1) == UlpFrom(m, 2) == UlpFrom(m, 4) == UlpFrom(m, 8) == UlpFrom(m, 16) == UlpFrom(m, 32);
  }

  lemma MulAtLeast(k: nat, v: nat, c: nat)
    requires v >= 1 && c >= 1 && k * v > (c - 1) * v
    ensures k >= c
  {
  }

  lemma MulMono(a: nat, b: nat, v: nat)
    requires a >= b
    ensures a * v >= b * v
  {
  }

  /** Magnitudes below `2^28 - 8` round to at most `2^28 - 16`. */
  lemma RoundMagnitudeBelow(m: nat)
    requires m < TwoTo24 * 16 - 8
    ensures RoundMagnitude(m) <= TwoTo24 * 16 - 16
  {
    var u := Ulp(m);
    var k := RoundedSignificand(m);
    UlpAtMost16(m);
    RoundMagnitudeNearest(m);
    assert 2 * (k * u - m) <= u;
    if u == 16 {
      assert k * 16 == k * u <= m + 8;
    } else {
      assert m < TwoTo24 * 15 by {
        MulMono(15, u, TwoTo24);
      }
      assert k * u <= m + 8;
    }
  }

  /** Just below `2^28` the spacing is 16, and `2^28 - 8` is a tie that goes to the even
      significand `2^24`. */
  lemma RoundMagnitudeTop(m: nat)
    requires TwoTo24 * 16 - 8 <= m < TwoTo24 * 16
    ensures RoundMagnitude(m) == TwoTo24 * 16
  {
    assert Ulp(m) == 16 by {
      assert UlpFrom(m, 1) == UlpFrom(m, 2) == UlpFrom(m, 4) == UlpFrom(m, 8) == UlpFrom(m, 16) == 16;
    }
    assert m / 16 == TwoTo24 - 1 && m % 16 >= 8;
    assert RoundedSignificand(m) == TwoTo24;
  }

  /** From `2^28` on, the rounded magnitude stays at least `2^28`. */
  lemma RoundMagnitudeBeyond(m: nat)
    requires m >= TwoTo24 * 16
    ensures RoundMagnitude(m) >= TwoTo24 * 16
  {
    var u := Ulp(m);
    var k := RoundedSignificand(m);
    UlpAtLeast32(m);
    RoundMagnitudeNearest(m);
    assert 2 * (m - k * u) <= u;
    MulAtLeast(k, u, TwoTo24 / 2);
    MulMono(k, TwoTo24 / 2, u);
    MulMono(u, 32, TwoTo24 / 2);
  }

  /** Magnitudes from `2^28 - 8` on round to at least `2^28`. */
  lemma RoundMagnitudeAbove(m: nat)
    requires m >= TwoTo24 * 16 - 8
    ensures RoundMagnitude(m) >= TwoTo24 * 16
  {
    if m < TwoTo24 * 16 {
      RoundMagnitudeTop(m);
    } else {
      RoundMagnitudeBeyond(m);
    }
  }

  // ---------------------------------------------------------------------------
  // f32 -> i32

  /** Rust's `as i32` on a float that holds an integer: out-of-range values saturate. */
  function SaturateI32(x: int): (r: I32)
    ensures -0x8000_0000 < x < 0x8000_0000 ==> r == x
    ensures x <= -0x8000_0000 ==> r == -0x8000_0000
    ensures x >= 0x7FFF_FFFF ==> r == 0x7FFF_FFFF
  {
    if x < -0x8000_0000 then -0x8000_0000
    else if x > 0x7FFF_FFFF then 0x7FFF_FFFF
    else x
  }

  // ---------------------------------------------------------------------------
  // Decimal text

  function DigitChar(d: nat): (c: char)
    requires d < 10
    ensures '0' <= c <= '9'
  {
    "0123456789"[d]
  }

  function DigitValue(c: char): nat
    requires '0' <= c <= '9'
  {
    (c - '0') as nat
  }

  predicate IsDigits(s: string) {
    forall k :: 0 <= k < |s| ==> '0' <= s[k] <= '9'
  }

  /** Value of a string of decimal digits. */
  function DigitsValue(s: string): nat
    requires IsDigits(s)
    decreases |s|
  {
    if |s| == 0 then 0 else DigitsValue(s[..|s| - 1]) * 10 + DigitValue(s[|s| - 1])
  }

  /** `format!("{}", n)` for a natural number: decimal digits, no leading zeros. */
  function NatText(n: nat): (s: string)
    ensures |s| >= 1 && IsDigits(s)
    ensures |s| > 1 ==> s[0] != '0'
    decreases n
  {
    if n < 10 then [DigitChar(n)] else NatText(n / 10) + [DigitChar(n % 10)]
  }

  /** `format!("{}", n)` for a signed integer. */
  function IntText(n: int): (s: string)
    ensures |s| >= 1
    ensures forall k :: 0 <= k < |s| ==> ('0' <= s[k] <= '9' || s[k] == '-')
    ensures (s[0] == '-') <==> n < 0
  {
    if n < 0 then "-" + NatText(-n) else NatText(n)
  }

  /** The signed text reads back as the number: after the `-` that marks a negative, the
      digits denote the magnitude. */
  lemma IntTextRoundTrip(n: int)
    ensures var s := IntText(n); var digits := if n < 0 then s[1..] else s;
      IsDigits(digits) && |digits| >= 1 && (|digits| > 1 ==> digits[0] != '0')
      && DigitsValue(digits) == (if n < 0 then -n else n)
  {
    if n < 0 {
      var t := NatText(-n);
      assert IntText(n) == "-" + t;
      assert ("-" + t)[1..] == t;
      NatTextRoundTrip(-n);
    } else {
      NatTextRoundTrip(n);
    }
  }

  lemma DigitRoundTrip(d: nat)
    requires d < 10
    ensures DigitValue(DigitChar(d)) == d
  {
  }

  /** Reading the digits back gives the number. */
  lemma {:induction false} NatTextRoundTrip(n: nat)
    ensures DigitsValue(NatText(n)) == n
    decreases n
  {
    var s := NatText(n);
    DigitRoundTrip(n % 10);
    if n >= 10 {
      NatTextRoundTrip(n / 10);
      assert s[..|s| - 1] == NatText(n / 10);
    }
  }

  /** `n` zero-padded to exactly `w` digits. */
  function Padded(n: nat, w: nat): (s: string)
    ensures |s| == w && IsDigits(s)
    decreases w
  {
    if w == 0 then "" else Padded(n / 10, w - 1) + [DigitChar(n % 10)]
  }

  /** Drop trailing zero digits. */
  function StripTrailingZeros(s: string): (t: string)
    ensures t <= s
    ensures |t| > 0 ==> t[|t| - 1] != '0'
    decreases |s|
  {
    if |s| > 0 && s[|s| - 1] == '0' then StripTrailingZeros(s[..|s| - 1]) else s
  }

  /** Rust's `{}` Display of the `f32` value `v / 512` for an integer `v` (every such value
      below 2^24 in magnitude, divided by 512, is an exact `f32`): sign, integer part, and
      the fractional part's exact decimal digits without trailing zeros. 1/512 is
      0.001953125, so nine fractional digits always suffice. */
  function Over512Text(v: int): (s: string)
    ensures |s| >= 1
    ensures forall k :: 0 <= k < |s| ==> ('0' <= s[k] <= '9' || s[k] == '-' || s[k] == '.')
  {
    var m := if v < 0 then -v else v;
    var whole, frac := m / 512, m % 512;
    var sign := if v < 0 then "-" else "";
    var fraction := if frac == 0 then "" else "." + StripTrailingZeros(Padded(frac * 1953125, 9));
    sign + NatText(whole) + fraction
  }

  /** The fractional digits name exactly `frac / 512`: the nine padded digits read back
      as `frac * 1953125`, i.e. `frac / 512 == frac * 1953125 / 10^9`. */
  lemma {:induction false} PaddedRoundTrip(n: nat, w: nat, bound: nat)
    requires bound == Pow10(w) && n < bound
    ensures DigitsValue(Padded(n, w)) == n
    decreases w
  {
    if w > 0 {
      var s := Padded(n, w);
      assert s[..|s| - 1] == Padded(n / 10, w - 1);
      PaddedRoundTrip(n / 10, w - 1, Pow10(w - 1));
      DigitRoundTrip(n % 10);
    }
  }

  /** Dropping `k` trailing zeros divides the value by `10^k`. */
  lemma {:induction false} StripTrailingZerosValue(s: string)
    requires IsDigits(s)
    ensures IsDigits(StripTrailingZeros(s))
    ensures DigitsValue(s) == DigitsValue(StripTrailingZeros(s)) * Pow10(|s| - |StripTrailingZeros(s)|)
    decreases |s|
  {
    var t := StripTrailingZeros(s);
    if |s| > 0 && s[|s| - 1] == '0' {
      var init := s[..|s| - 1];
      assert IsDigits(init);
      StripTrailingZerosValue(init);
      assert t == StripTrailingZeros(init);
      assert DigitsValue(s) == DigitsValue(init) * 10;
      var k := |init| - |t|;
      assert Pow10(k + 1) == 10 * Pow10(k);
      MulAssoc(DigitsValue(t), Pow10(k), 10);
    } else {
      assert Pow10(0) == 1;
    }
  }

  lemma MulAssoc(a: nat, b: nat, c: nat)
    ensures a * b * c == a * (c * b)
  {
  }

  /** The fraction `Over512Text` prints for `frac / 512` (`0 < frac < 512`) has between one
      and nine digits, no trailing zero, and denotes the fraction exactly:
      `f / 10^|f| == frac / 512`. */
  lemma FractionDigitsExact(frac: nat)
    requires 0 < frac < 512
    ensures var f := StripTrailingZeros(Padded(frac * 1953125, 9));
      IsDigits(f) && 0 < |f| <= 9 && f[|f| - 1] != '0'
      && DigitsValue(f) * Pow10(9 - |f|) * 512 == frac * Pow10(9)
  {
    var n := frac * 1953125;
    var padded := Padded(n, 9);
    var f := StripTrailingZeros(padded);
    Pow10Nine();
    assert n < Pow10(9);
    PaddedRoundTrip(n, 9, Pow10(9));
    StripTrailingZerosValue(padded);
    var d, p := DigitsValue(f), Pow10(9 - |f|);
    assert d * p == n;
    assert n * 512 == frac * 1000000000;
  }

  lemma Pow10Nine()
    ensures Pow10(9) == 1000000000
  {
  }

  function Pow10(w: nat): (p: nat)
    ensures p >= 1
  {
    if w == 0 then 1 else 10 * Pow10(w - 1)
  }
}
