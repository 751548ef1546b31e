/** 64-bit block masses, scaled by 31-bit branch probabilities, and the dithering
    distributer that splits a mass without losing any of it. */
module BlockMasses {

  const MAX64: int := 0xFFFF_FFFF_FFFF_FFFF
  const MAX32: int := 0xFFFF_FFFF
  const TWO32: int := 0x1_0000_0000
  // The denominator of every branch probability.
  const PROB_ONE: int := 0x8000_0000

  type Mass = m: int | 0 <= m <= MAX64

  /** Saturating addition. */
  function AddMass(a: int, b: int): int { if a + b > MAX64 then MAX64 else a + b }

  /** The numerator of the probability closest to w/d. */
  function Probability(w: int, d: int): int
    requires 0 < d
  {
    if d == PROB_ONE then w else (w * PROB_ONE + d / 2) / d
  }

  lemma ProbabilityBounds(w: int, d: int)
    requires 0 <= w <= d <= MAX32 && 0 < d
    ensures 0 <= Probability(w, d) <= PROB_ONE
    ensures w == d ==> Probability(w, d) == PROB_ONE
  {
    if d != PROB_ONE {
      DivBounds(w * PROB_ONE + d / 2, d, PROB_ONE);
      if w == d {
        DivUnique(w * PROB_ONE + d / 2, d, PROB_ONE);
      }
    }
  }

  /** The probability is the closest one: off by at most half a unit of its denominator. */
  lemma ProbabilityNear(w: int, d: int)
    requires 0 <= w && 0 < d
    ensures -d <= 2 * (Probability(w, d) * d - w * PROB_ONE) <= d
  {
    if d != PROB_ONE {
      Quotient(w * PROB_ONE + d / 2, d);
    }
  }

  lemma Quotient(x: int, d: int)
    requires 0 < d
    ensures x / d * d <= x < x / d * d + d
  {
  }

  /** What weight w of W left gets of mass M is M * w / W, up to rounding: less than one unit down,
      and as much as the probability is off up or down. */
  predicate IsFair(taken: int, w: int, W: int, M: int) {
    -(M * W) - 0x1_0000_0000 * W <= 0x1_0000_0000 * (taken * W - M * w) <= M * W
  }

  lemma ShareIsFair(M: int, w: int, W: int)
    requires 0 <= M && 0 <= w <= W && 0 < W
    ensures IsFair(M * Probability(w, W) / PROB_ONE, w, W, M)
  {
    var p := Probability(w, W);
    hide Probability;
    var t := M * p / PROB_ONE;
    ProbabilityNear(w, W);
    Quotient(M * p, PROB_ONE);
    var e := 2 * (p * W - w * PROB_ONE);
    ErrorBound(M, e, W);
    ScaledBy(t, p, w, W, M, e);
  }

  lemma ErrorBound(M: int, e: int, W: int)
    requires 0 <= M && -W <= e <= W
    ensures -(M * W) <= M * e <= M * W
  {
    MulMono(e, W, M);
    MulMono(-W, e, M);
  }

  lemma ScaledBy(t: int, p: int, w: int, W: int, M: int, e: int)
    requires 0 < W && t * PROB_ONE <= M * p < t * PROB_ONE + PROB_ONE && e == 2 * (p * W - w * PROB_ONE)
    ensures M * e - 0x1_0000_0000 * W <= 0x1_0000_0000 * (t * W - M * w) <= M * e
  {
    var r := M * p - t * PROB_ONE;
    Expand(t, p, w, W, M, r);
    MulMono(0, r, W);
    MulMono(r, PROB_ONE, W);
  }

  lemma Expand(t: int, p: int, w: int, W: int, M: int, r: int)
    requires r == M * p - t * PROB_ONE
    ensures M * (2 * (p * W - w * PROB_ONE)) - 2 * (r * W) == 0x1_0000_0000 * (t * W - M * w)
  {
    assert r * W == M * p * W - t * PROB_ONE * W;
    assert M * (p * W) == M * p * W;
    assert M * (w * PROB_ONE) == M * w * PROB_ONE;
    assert t * PROB_ONE * W == PROB_ONE * (t * W);
  }

  lemma MulMono(a: int, b: int, c: int)
    requires a <= b && 0 <= c
    ensures a * c <= b * c
  {
  }

  /** The quotient is the only number whose multiples of d enclose x. */
  lemma DivUnique(x: int, d: int, q: int)
    requires 0 < d && q * d <= x < q * d + d
    ensures x / d == q
  {
    var k := x / d;
    assert k * d <= x < k * d + d;
    if k < q {
      MulMono(k + 1, q, d);
    } else if q < k {
      MulMono(q + 1, k, d);
    }
  }

  lemma DivBounds(x: int, d: int, k: int)
    requires 0 < d && 0 <= x < (k + 1) * d
    ensures 0 <= x / d <= k
  {
    var q := x / d;
    assert q * d <= x;
    if q > k {
      MulMono(k + 1, q, d);
    }
  }

  /** Scaling a 64-bit number by n/PROB_ONE in 32-bit digits, as the library does it. */
  function Scale(num: int, n: int): int
    requires 0 <= num <= MAX64 && 0 <= n <= PROB_ONE
  {
    if num == 0 || n == PROB_ONE then num
    else
      var productHigh, productLow := num / TWO32 * n, num % TWO32 * n;
      var upper32, lower32, midPartial := productHigh / TWO32, productLow % TWO32, productHigh % TWO32;
      var mid32 := (midPartial + productLow / TWO32) % TWO32;
      var upper := upper32 + (if mid32 < midPartial then 1 else 0);
      if upper >= PROB_ONE then MAX64
      else
        var rem := upper * TWO32 + mid32;
        var upperQ := rem / PROB_ONE;
        if upperQ > MAX32 then MAX64
        else
          var rem2 := rem % PROB_ONE * TWO32 + lower32;
          var lowerQ := rem2 / PROB_ONE;
          var q := upperQ * TWO32 + lowerQ;
          if q > MAX64 then MAX64 else q
  }

  /** Splitting into digits, carrying and recombining is exact: no branch saturates. */
  lemma ScaleIsExact(num: int, n: int)
    requires 0 <= num <= MAX64 && 0 <= n <= PROB_ONE
    ensures Scale(num, n) == num * n / PROB_ONE
    ensures 0 <= Scale(num, n) <= num
    ensures n == PROB_ONE ==> Scale(num, n) == num
  {
    if num != 0 && n != PROB_ONE {
      var hi, lo := num / TWO32, num % TWO32;
      var ph, pl := hi * n, lo * n;
      DigitsProduct(hi, lo, n);
      assert num == hi * TWO32 + lo;
      MulMono(0, n, hi);
      MulMono(0, n, lo);
      MulMono(n, PROB_ONE, lo);
      ScaleDigits(num * n, ph, pl, hi, n);
      MulMono(n, PROB_ONE, num);
      MulMono(0, num, n);
    }
  }

  lemma DigitsProduct(hi: int, lo: int, n: int)
    ensures (hi * TWO32 + lo) * n == (hi * n) * TWO32 + lo * n
  {
  }

  lemma ScaleDigits(p: int, ph: int, pl: int, hi: int, n: int)
    requires p == ph * TWO32 + pl && 0 <= ph && 0 <= pl < TWO32 * PROB_ONE
    requires 0 <= hi < TWO32 && ph == hi * n && 0 <= n < PROB_ONE
    ensures var upper32, lower32, midPartial := ph / TWO32, pl % TWO32, ph % TWO32;
      var mid32 := (midPartial + pl / TWO32) % TWO32;
      var upper := upper32 + (if mid32 < midPartial then 1 else 0);
      var rem := upper * TWO32 + mid32;
      var rem2 := rem % PROB_ONE * TWO32 + lower32;
      && upper < PROB_ONE && rem / PROB_ONE <= MAX32
      && rem / PROB_ONE * TWO32 + rem2 / PROB_ONE == p / PROB_ONE
      && p / PROB_ONE <= MAX64
  {
    var upper32, lower32, midPartial := ph / TWO32, pl % TWO32, ph % TWO32;
    var mid32 := (midPartial + pl / TWO32) % TWO32;
    var upper := upper32 + (if mid32 < midPartial then 1 else 0);
    var rem := upper * TWO32 + mid32;
    assert rem == ph + pl / TWO32;
    assert p == rem * TWO32 + lower32;
    MulMono(hi, TWO32 - 1, n);
    assert rem < TWO32 * PROB_ONE;
  }

  // ----- The distributer -----

  class DitheringDistributer {
    var remWeight: int
    var remMass: int

    constructor (total: int, mass: int)
      ensures remWeight == total && remMass == mass
    {
      remWeight, remMass := total, mass;
    }

    /** Split off the share of one weight. */
    method TakeMass(weight: int) returns (taken: int)
      requires 0 < weight <= remWeight <= MAX32 && 0 <= remMass <= MAX64
      modifies this
      ensures remWeight == old(remWeight) - weight && remMass == old(remMass) - taken
      ensures 0 <= taken <= old(remMass)
      ensures taken == old(remMass) * Probability(weight, old(remWeight)) / PROB_ONE
      ensures IsFair(taken, weight, old(remWeight), old(remMass))
      ensures remWeight == 0 ==> remMass == 0
    {
      ProbabilityBounds(weight, remWeight);
      ShareIsFair(remMass, weight, remWeight);
      ScaleIsExact(remMass, Probability(weight, remWeight));
      taken := Scale(remMass, Probability(weight, remWeight));
      remWeight, remMass := remWeight - weight, remMass - taken;
    }
  }
}
