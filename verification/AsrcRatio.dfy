/** The sample-rate ratio of the converter: a fixed-point quotient of two rates, computed on
    the rates reduced by their greatest common divisor. */
module AsrcRatio {
  import opened Words

  const MIN_RATE: nat := 8000
  const MAX_RATE: nat := 768000

  // ---------------------------------------------------------------- greatest common divisor

  predicate Divides(d: nat, n: nat)
  {
    d > 0 && n % d == 0
  }

  ghost predicate IsGcd(g: nat, a: nat, b: nat) {
    && Divides(g, a) && Divides(g, b)
    && forall d: nat :: Divides(d, a) && Divides(d, b) ==> d <= g
  }

  /** Dividing by a common divisor and taking the remainder keeps the common divisors. */
  lemma RemainderDivisors(d: nat, a: nat, b: nat)
    requires b > 0 && Divides(d, b)
    ensures Divides(d, a) <==> Divides(d, a % b)
  {
    var q, k := a / b, b / d;
    assert a == b * q + a % b && b == d * k;
    assert b * q == d * (k * q);
    var r := (a % b) % d;
    assert a % b == d * ((a % b) / d) + r;
    assert a == d * (k * q + (a % b) / d) + r by {
      assert d * (k * q + (a % b) / d) == d * (k * q) + d * ((a % b) / d);
    }
    DivModUnique(a, d, k * q + (a % b) / d, r);
  }

  lemma GcdOfRemainder(g: nat, a: nat, b: nat)
    requires b > 0 && IsGcd(g, b, a % b)
    ensures IsGcd(g, a, b)
  {
    RemainderDivisors(g, a, b);
    forall d: nat | Divides(d, a) && Divides(d, b) ensures d <= g {
      RemainderDivisors(d, a, b);
    }
  }

  lemma GcdOfZero(a: nat)
    requires a > 0
    ensures IsGcd(a, a, 0)
  {
    DivModUnique(a, a, 1, 0);
    forall d: nat | Divides(d, a) && Divides(d, 0) ensures d <= a {
      assert a == d * (a / d);
      MulBound(d, a / d);
    }
  }

  /** Euclid's algorithm, the specification of the loop. */
  function Gcd(a: nat, b: nat): nat
    decreases b
  {
    if b == 0 then a else Gcd(b, a % b)
  }

  lemma {:induction false} GcdIsGreatest(a: nat, b: nat)
    requires a > 0 || b > 0
    ensures IsGcd(Gcd(a, b), a, b)
    decreases b
  {
    if b == 0 {
      GcdOfZero(a);
    } else {
      GcdIsGreatest(b, a % b);
      GcdOfRemainder(Gcd(b, a % b), a, b);
    }
  }

  /** ASRC_GetSampleRateGCD */
  method SampleRateGcd(inputRate: nat, outputRate: nat) returns (gcd: nat)
    ensures gcd == Gcd(inputRate, outputRate)
    ensures inputRate > 0 || outputRate > 0 ==> IsGcd(gcd, inputRate, outputRate)
  {
    gcd := inputRate;
    var output: nat := outputRate;
    while output != 0
      invariant Gcd(gcd, output) == Gcd(inputRate, outputRate)
      decreases output
    {
      var temp: nat := output;
      output := gcd % output;
      gcd := temp;
    }
    if inputRate > 0 || outputRate > 0 {
      GcdIsGreatest(inputRate, outputRate);
    }
  }

  // ---------------------------------------------------------------- the ratio

  /** asrc_resampler_taps_t, whose values 32, 64 and 128 are also the ratio formats. */
  datatype Taps = Taps32 | Taps64 | Taps128

  function Value(t: Taps): nat {
    match t case Taps32 => 32 case Taps64 => 64 case Taps128 => 128
  }

  /** ASRC_GetResampleFractBits */
  function FractBits(t: Taps): nat {
    match t case Taps32 => 39 case Taps64 => 38 case Taps128 => 37
  }

  /** The fractional bits that ASRC_SetSampleRateRatioConfig derives from the format value. */
  function FormatBits(format: nat): nat {
    if format == 32 then 39 else if format == 64 then 38 else 37
  }

  function Pow2(k: nat): (p: nat)
    ensures p > 0
  {
    if k == 0 then 1 else 2 * Pow2(k - 1)
  }

  const U64: nat := 0x1_0000_0000_0000_0000

  datatype Registers = Registers(low: nat, high: nat)

  /** ASRC_SetSampleRateRatioConfig with its 64-bit shift and 32-bit register writes. */
  method SetRatio(inputRate: nat, outputRate: nat, format: nat) returns (r: Registers)
    requires MIN_RATE <= inputRate <= MAX_RATE && MIN_RATE <= outputRate <= MAX_RATE
    ensures r.low < U32 && r.high < U32
    ensures r.high * U32 + r.low == inputRate * Pow2(FormatBits(format)) / outputRate
  {
    var gcd := SampleRateGcd(inputRate, outputRate);
    var inRate, outRate := inputRate / gcd, outputRate / gcd;
    var scale := Pow2(FormatBits(format));
    ReducedRates(inputRate, outputRate, gcd);
    ScaleFits(FormatBits(format));
    Quotient(inputRate, outputRate, gcd, scale);
    var ratio := inRate * scale % U64 / outRate;
    r := Registers(ratio % U32, ratio / U32 % U32);
  }

  /** What the reduced 64-bit computation leaves in the two registers. */
  lemma Quotient(a: nat, b: nat, g: nat, p: nat)
    requires 0 < a <= MAX_RATE && b > 0 && Divides(g, a) && Divides(g, b) && p <= 0x80_0000_0000
    ensures b / g > 0
    ensures var ratio := (a / g) * p % U64 / (b / g);
            (ratio / U32 % U32) * U32 + ratio % U32 == a * p / b
  {
    ReducedRates(a, b, g);
    var x := (a / g) * p;
    ShiftFits(a / g, p);
    assert x % U64 == x;
    ReducedRatio(a, b, g, p);
    QuotientFits(x, b / g);
    SplitWord(x / (b / g));
  }

  lemma ScaleFits(fracBits: nat)
    requires 37 <= fracBits <= 39
    ensures Pow2(fracBits) <= 0x80_0000_0000
  {
    Pow2Values();
  }

  lemma Pow2Values()
    ensures Pow2(37) == 0x20_0000_0000 && Pow2(38) == 0x40_0000_0000 && Pow2(39) == 0x80_0000_0000
  {
    assert Pow2(8) == 256 by { assert Pow2(4) == 16; }
    assert Pow2(16) == 0x1_0000 by { assert Pow2(12) == 0x1000; }
    assert Pow2(24) == 0x100_0000 by { assert Pow2(20) == 0x10_0000; }
    assert Pow2(32) == 0x1_0000_0000 by { assert Pow2(28) == 0x1000_0000; }
    assert Pow2(36) == 0x10_0000_0000;
  }

  lemma ReducedRates(a: nat, b: nat, g: nat)
    requires Divides(g, a) && Divides(g, b) && a > 0 && b > 0
    ensures 1 <= a / g <= a && 1 <= b / g <= b && a == (a / g) * g && b == (b / g) * g
  {
    Reduced(a, g);
    Reduced(b, g);
  }

  lemma Reduced(a: nat, g: nat)
    requires Divides(g, a) && a > 0
    ensures 1 <= a / g <= a && a == (a / g) * g
  {
    var q := a / g;
    assert a == g * q;
    assert q >= 1;
    assert g * q - q == (g - 1) * q;
    MulMono(q, 0, g - 1);
  }

  /** The shifted rate never overflows 64 bits. */
  lemma ShiftFits(inRate: nat, p: nat)
    requires inRate <= MAX_RATE && p <= 0x80_0000_0000
    ensures inRate * p < U64
  {
    MulMono(inRate, p, 0x80_0000_0000);
  }

  lemma QuotientFits(x: nat, n: nat)
    requires n >= 1
    ensures x / n <= x
  {
    assert x == n * (x / n) + x % n;
    MulMono(x / n, 1, n);
  }

  lemma SplitWord(x: nat)
    requires x < U64
    ensures (x / U32 % U32) * U32 + x % U32 == x
  {
  }

  /** Reducing both rates by a common divisor does not change the quotient. */
  lemma ReducedRatio(a: nat, b: nat, g: nat, p: nat)
    requires Divides(g, a) && Divides(g, b) && a > 0 && b > 0
    ensures b / g > 0 && (a / g) * p / (b / g) == a * p / b
  {
    ReducedRates(a, b, g);
    ScaledQuotient((a / g) * p, b / g, g);
    assert (a / g) * g * p == ((a / g) * p) * g;
  }

  lemma ScaledQuotient(x: nat, v: nat, g: nat)
    requires v > 0 && g > 0
    ensures x * g / (v * g) == x / v
  {
    var q, r := x / v, x % v;
    assert x == v * q + r;
    assert x * g == (v * g) * q + r * g;
    MulMono(g, r, v - 1);
    assert (v - 1) * g == v * g - g;
    DivModUnique(x * g, v * g, q, r * g);
  }

  /** For every tap count the format written to the ratio registers and the fractional bits
      reported to the caller agree. */
  lemma FormatsAgree(t: Taps)
    ensures FormatBits(Value(t)) == FractBits(t)
  {
  }

  lemma QuotientBelow(x: nat, n: nat, bound: nat)
    requires n > 0
    ensures x / n < bound <==> x < n * bound
  {
    var q := x / n;
    assert x == n * q + x % n;
    assert n * q - n * bound == n * (q - bound);
    MulBound(n, q - bound);
  }

  lemma ScaledLess(p: nat, a: nat, b: nat)
    requires p > 0
    ensures a * p < b * p <==> a < b
  {
    assert b * p - a * p == p * (b - a);
    MulBound(p, b - a);
  }

  lemma ScaleOf(t: Taps)
    ensures Pow2(FractBits(t)) * Value(t) == 0x1000_0000_0000
  {
    Pow2Values();
  }

  /** A ratio fits its 44-bit format exactly when the conversion factor is below the limit of
      its integer bits: 32, 64 or 128. With 7 integer bits every pair of legal rates does. */
  lemma RatioFits44Iff(inputRate: nat, outputRate: nat, t: Taps)
    requires MIN_RATE <= inputRate <= MAX_RATE && MIN_RATE <= outputRate <= MAX_RATE
    ensures inputRate * Pow2(FractBits(t)) / outputRate < 0x1000_0000_0000 <==> inputRate < Value(t) * outputRate
    ensures t == Taps128 ==> inputRate < Value(t) * outputRate
  {
    var p, v := Pow2(FractBits(t)), Value(t);
    ScaleOf(t);
    QuotientBelow(inputRate * p, outputRate, p * v);
    assert outputRate * (p * v) == (v * outputRate) * p;
    ScaledLess(p, inputRate, v * outputRate);
  }

  // ---------------------------------------------------------------- output size

  /** ASRC_GetContextOutSampleSize, with the u32 truncations of its quotient and result. */
  function OutSampleSize(inRate: nat, inSize: nat, inWidth: nat, outRate: nat, outWidth: nat): nat
    requires inRate > 0 && inWidth > 0
  {
    var product := inSize / inWidth * outRate;
    var remainder := if product % inRate == 0 then 0 else 1;
    (remainder + product / inRate % U32) % U32 * outWidth % U32
  }

  /** The least number of output samples that lasts as long as `n` input samples. */
  ghost predicate IsLeastCover(m: nat, n: nat, inRate: nat, outRate: nat) {
    forall k: nat :: k * inRate >= n * outRate <==> k >= m
  }

  lemma RoundedUpCovers(n: nat, inRate: nat, outRate: nat, m: nat)
    requires inRate > 0
    requires m == n * outRate / inRate + if n * outRate % inRate == 0 then 0 else 1
    ensures IsLeastCover(m, n, inRate, outRate)
  {
    var x := n * outRate;
    var q, r := x / inRate, x % inRate;
    assert x == inRate * q + r;
    forall k: nat ensures k * inRate >= x <==> k >= m {
      Covers(k, inRate, q, r);
    }
  }

  lemma Covers(k: nat, n: nat, q: nat, r: nat)
    requires r < n
    ensures k * n >= n * q + r <==> if r == 0 then k >= q else k >= q + 1
  {
    assert k * n - n * q == n * (k - q);
    assert n * (k - q - 1) == n * (k - q) - n;
    MulBound(n, k - q);
    MulBound(n, k - q - 1);
  }

  lemma LeastCoverUnique(m: nat, m': nat, n: nat, inRate: nat, outRate: nat)
    requires IsLeastCover(m, n, inRate, outRate) && IsLeastCover(m', n, inRate, outRate)
    ensures m == m'
  {
    assert m * inRate >= n * outRate && m' * inRate >= n * outRate;
  }

  /** The size returned is that of the least number of output samples covering the input if
      and only if that size fits 32 bits. */
  lemma OutSampleSizeIff(inRate: nat, inSize: nat, inWidth: nat, outRate: nat, outWidth: nat, m: nat)
    requires inRate > 0 && inWidth > 0 && IsLeastCover(m, inSize / inWidth, inRate, outRate)
    ensures OutSampleSize(inRate, inSize, inWidth, outRate, outWidth) == m * outWidth <==> m * outWidth < U32
  {
    var x := inSize / inWidth * outRate;
    var up := if x % inRate == 0 then 0 else 1;
    RoundedUpCovers(inSize / inWidth, inRate, outRate, x / inRate + up);
    LeastCoverUnique(m, x / inRate + up, inSize / inWidth, inRate, outRate);
    TruncatedProduct(up, x / inRate, outWidth);
  }

  lemma TruncatedProduct(up: nat, quotient: nat, width: nat)
    ensures (up + quotient % U32) % U32 * width % U32 == (quotient + up) * width <==> (quotient + up) * width < U32
  {
    var m := quotient + up;
    if m * width < U32 && width > 0 {
      MulMono(m, 1, width);
      assert m < U32 && quotient % U32 == quotient;
    } else if width == 0 {
      assert (up + quotient % U32) % U32 * width == 0;
    }
  }
}
