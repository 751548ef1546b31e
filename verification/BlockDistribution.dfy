/** Distributions: collecting edge weights, normalizing their total to 32 bits, and handing
    out a mass along them so that none of it is lost. */
module BlockDistributions {
  import opened BlockMasses
  import opened BlockWeights

  const TWO64: int := 0x1_0000_0000_0000_0000

  // ----- Shifting -----

  function Pow2(n: nat): (p: int)
    ensures p >= 1
  {
    if n == 0 then 1 else 2 * Pow2(n - 1)
  }

  /** The number of binary digits of x: 64 less its leading zeros. */
  function BitLen(x: nat): nat { if x == 0 then 0 else 1 + BitLen(x / 2) }

  lemma {:induction false} BitLenBounds(x: nat)
    ensures x < Pow2(BitLen(x))
    ensures x > 0 ==> Pow2(BitLen(x) - 1) <= x
  {
    if x > 0 {
      BitLenBounds(x / 2);
    }
  }

  lemma {:induction false} Pow2Mono(a: nat, b: nat)
    requires a <= b
    ensures Pow2(a) <= Pow2(b)
  {
    if a < b {
      Pow2Mono(a, b - 1);
    }
  }

  lemma {:induction false} Pow2Add(a: nat, b: nat)
    ensures Pow2(a + b) == Pow2(a) * Pow2(b)
  {
    if a > 0 {
      Pow2Add(a - 1, b);
      assert Pow2(a) * Pow2(b) == 2 * (Pow2(a - 1) * Pow2(b));
    }
  }

  lemma Pow2Values()
    ensures Pow2(31) == 0x8000_0000 && Pow2(32) == TWO32 && Pow2(33) == 2 * TWO32 && Pow2(64) == TWO64
  {
    assert Pow2(8) == 256;
    Pow2Add(8, 8);
    Pow2Add(16, 16);
    Pow2Add(32, 32);
  }

  /** N >> Shift, plus the last bit shifted out. */
  function ShiftRightAndRound(n: nat, shift: nat): int {
    if shift == 0 then n else n / Pow2(shift) + n / Pow2(shift - 1) % 2
  }

  function Max(a: int, b: int): int { if a < b then b else a }

  /** Adding the last bit shifted out rounds to the nearest, halves upwards. */
  lemma ShiftRounds(n: nat, shift: nat)
    requires shift > 0
    ensures ShiftRightAndRound(n, shift) == (n + Pow2(shift - 1)) / Pow2(shift)
  {
    hide Pow2;
    var p := Pow2(shift - 1);
    assert Pow2(shift) == 2 * p by { Doubled(shift); }
    var a := n / p;
    DivFloor(n, p);
    HalfDivision(n, p, a);
    HalfDivision(n + p, p, a + 1);
  }

  lemma Doubled(shift: nat)
    requires shift > 0
    ensures Pow2(shift) == 2 * Pow2(shift - 1)
  {
  }

  lemma DivFloor(x: int, d: int)
    requires d > 0
    ensures d * (x / d) <= x < d * (x / d) + d
  {
  }

  lemma HalfDivision(n: nat, p: int, a: int)
    requires p > 0 && a * p <= n < a * p + p
    ensures n / p == a && n / (2 * p) == a / 2
  {
    DivUnique(n, p, a);
    var q, r := a / 2, a % 2;
    assert a == 2 * q + r;
    assert a * p == q * (2 * p) + r * p;
    assert r * p == if r == 0 then 0 else p;
    DivUnique(n, 2 * p, q);
  }

  /** How far to shift: one more than needed, as the least weight of 1 may add to the total. */
  function ShiftFor(didOverflow: bool, total: nat): nat {
    if didOverflow then 33 else if total > MAX32 then Max(0, BitLen(total) - 31) else 0
  }

  lemma ShiftRange(didOverflow: bool, total: nat)
    requires total <= MAX64
    ensures 0 <= ShiftFor(didOverflow, total) <= 33
    ensures ShiftFor(didOverflow, total) == 0 <==> !didOverflow && total <= MAX32
    ensures !didOverflow ==> total < Pow2(ShiftFor(didOverflow, total) + 32)
    ensures var s := ShiftFor(didOverflow, total); !didOverflow && s > 0 ==> Pow2(s + 30) <= total < Pow2(s + 31)
    ensures didOverflow ==> ShiftFor(didOverflow, total) == 33
  {
    Pow2Values();
    if !didOverflow && total > MAX32 {
      BitLenBounds(total);
      if BitLen(total) <= 32 {
        Pow2Mono(BitLen(total), 32);
      }
      if BitLen(total) >= 65 {
        Pow2Mono(64, BitLen(total) - 1);
      }
    }
  }

  /** One weight scaled down, never to nothing. */
  function Scaled(w: Weight, shift: nat): Weight {
    w.(amount := if w.amount < 0 then 1 else Max(1, ShiftRightAndRound(w.amount, shift)))
  }

  function ScaledAll(ws: seq<Weight>, shift: nat): (r: seq<Weight>)
    ensures |r| == |ws| && forall k | 0 <= k < |ws| :: r[k] == Scaled(ws[k], shift)
  {
    if ws == [] then [] else [Scaled(ws[0], shift)] + ScaledAll(ws[1..], shift)
  }

  lemma ScaledIs(w: Weight, shift: nat)
    requires w.amount >= 0 && shift > 0
    ensures Scaled(w, shift).amount == Max(1, (w.amount + Pow2(shift - 1)) / (2 * Pow2(shift - 1)))
  {
    ShiftRounds(w.amount, shift);
  }

  lemma ScaledBound(w: Weight, shift: nat)
    requires w.amount >= 0 && shift > 0
    ensures Pow2(shift) * Scaled(w, shift).amount <= w.amount + Pow2(shift)
    ensures Scaled(w, shift).amount >= 1
  {
    var h := Pow2(shift - 1);
    ScaledIs(w, shift);
    DivFloor(w.amount + h, 2 * h);
  }

  lemma MulAdd(p: int, a: int, b: int)
    ensures p * (a + b) == p * a + p * b
  {
  }

  lemma {:induction false} ScaledPositive(ws: seq<Weight>, shift: nat)
    ensures Positive(ScaledAll(ws, shift))
  {
    forall k | 0 <= k < |ws| ensures ScaledAll(ws, shift)[k].amount > 0 {
    }
  }

  /** Rounding and lifting to 1 together add less than one unit per weight. */
  lemma {:induction false} ScaledSum(ws: seq<Weight>, shift: nat)
    requires Positive(ws) && shift > 0
    ensures Pow2(shift) * Sum(ScaledAll(ws, shift)) <= Sum(ws) + |ws| * Pow2(shift)
  {
    hide Scaled;
    if ws != [] {
      ScaledBound(ws[0], shift);
      ScaledSum(ws[1..], shift);
      MulAdd(Pow2(shift), Scaled(ws[0], shift).amount, Sum(ScaledAll(ws[1..], shift)));
      MulAdd(Pow2(shift), |ws[1..]|, 1);
      assert ScaledAll(ws, shift)[1..] == ScaledAll(ws[1..], shift);
    }
  }

  /** The total fits 32 bits whenever the unscaled sum leaves room for one unit per weight. */
  lemma ScaledFits(ws: seq<Weight>, shift: nat)
    requires Positive(ws) && shift > 0
    requires Sum(ws) + |ws| * Pow2(shift) < Pow2(shift + 32)
    ensures Sum(ScaledAll(ws, shift)) <= MAX32
  {
    ScaledSum(ws, shift);
    Pow2Values();
    Pow2Add(shift, 32);
    var p, s := Pow2(shift), Sum(ScaledAll(ws, shift));
    if TWO32 <= s {
      MulMono(TWO32, s, p);
    }
  }

  /** A total below 2^64 over at most 2^31 targets always leaves that room. */
  lemma RoomWithoutOverflow(sum: int, n: nat, shift: nat)
    requires sum < Pow2(shift + 31) && n <= 0x8000_0000
    ensures sum + n * Pow2(shift) < Pow2(shift + 32)
  {
    Pow2Values();
    Pow2Add(shift, 31);
    MulMono(n, 0x8000_0000, Pow2(shift));
    assert Pow2(shift + 32) == 2 * Pow2(shift + 31);
  }

  /** A heavier edge stays at least as heavy. */
  lemma ScaledMonotone(v: Weight, w: Weight, shift: nat)
    requires 0 <= v.amount <= w.amount
    ensures Scaled(v, shift).amount <= Scaled(w, shift).amount
  {
    if shift > 0 {
      var h := Pow2(shift - 1);
      ScaledIs(v, shift);
      ScaledIs(w, shift);
      DivMono(v.amount + h, w.amount + h, 2 * h);
    }
  }

  /** Scaling never turns the order of two weights around. */
  ghost predicate KeepsOrder(ws: seq<Weight>, out: seq<Weight>) {
    && |out| == |ws|
    && forall i, j | 0 <= i < |ws| && 0 <= j < |ws| && ws[i].amount <= ws[j].amount :: out[i].amount <= out[j].amount
  }

  lemma ScaledKeepsOrder(ws: seq<Weight>, shift: nat)
    requires Positive(ws)
    ensures KeepsOrder(ws, ScaledAll(ws, shift))
  {
    forall i, j | 0 <= i < |ws| && 0 <= j < |ws| && ws[i].amount <= ws[j].amount
      ensures ScaledAll(ws, shift)[i].amount <= ScaledAll(ws, shift)[j].amount
    {
      ScaledMonotone(ws[i], ws[j], shift);
    }
  }

  lemma DivMono(x: int, y: int, d: int)
    requires x <= y && d > 0
    ensures x / d <= y / d
  {
    DivFloor(x, d);
    DivFloor(y, d);
    if y / d < x / d {
      MulMono(y / d + 1, x / d, d);
    }
  }

  // ----- The distribution -----

  /** At most 2^31 targets; and once the 64-bit total has overflowed, a sum that leaves room for
      lifting every scaled weight to 1. */
  ghost predicate Roomy(combined: seq<Weight>, didOverflow: bool) {
    && |combined| <= 0x8000_0000
    && (didOverflow && |combined| > 1 ==> Sum(combined) + |combined| * Pow2(33) < Pow2(65))
  }

  class Distribution {
    var weights: seq<Weight>
    var total: int
    var didOverflow: bool

    /** The true sum of the weights is the 64-bit total plus the one overflow remembered. */
    ghost predicate Valid()
      reads this
    {
      && Positive(weights) && InRange(weights)
      && 0 <= total <= MAX64
      && Sum(weights) == total + if didOverflow then TWO64 else 0
    }

    constructor ()
      ensures Valid() && weights == [] && total == 0 && !didOverflow
    {
      weights, total, didOverflow := [], 0, false;
    }

    method Add(node: int, amount: int, typ: DistType)
      requires Valid() && 0 < amount <= MAX64
      requires Sum(weights) + amount < 2 * TWO64 // the total must not overflow twice
      modifies this
      ensures Valid() && weights == old(weights) + [Weight(typ, node, amount)]
      ensures didOverflow <==> Sum(weights) > MAX64
    {
      var newTotal := (total + amount) % TWO64;
      var isOverflow := newTotal < total;
      SumAppend(weights, [Weight(typ, node, amount)]);
      assert Sum([Weight(typ, node, amount)]) == amount;
      assert !(didOverflow && isOverflow);
      didOverflow := didOverflow || isOverflow;
      total := newTotal;
      weights := weights + [Weight(typ, node, amount)];
    }

    /** Combine edges to the same target and scale down until the total fits 32 bits. */
    method Normalize() returns (ghost combined: seq<Weight>)
      requires Valid() && TypesAgree(weights)
      modifies this
      ensures Combines(old(weights), combined) && (old(weights) != [] ==> combined != [])
      ensures old(weights) == [] ==> weights == [] && total == old(total)
      ensures |combined| == 1 ==> weights == [combined[0].(amount := 1)] && total == 1
      ensures |combined| > 1 ==> weights == ScaledAll(combined, ShiftFor(didOverflow, old(total)))
      ensures Positive(weights) && total == Sum(weights) % TWO64 && didOverflow == old(didOverflow)
      ensures KeepsOrder(combined, weights)
      ensures Roomy(combined, didOverflow) ==> total == Sum(weights) <= MAX32
    {
      hide Combines, Fits, Distinct, HasTarget, TypesAgree, Scaled, ShiftFor, Roomy, Pow2, BitLen, KeepsOrder;
      ghost var ws := weights;
      combined := [];
      if weights == [] {
        NothingCombines();
        FewKeepOrder([], []);
        return;
      }
      if |weights| > 1 {
        weights := CombineWeights(weights);
      } else {
        DistinctCombines(weights, 1);
        assert weights[..1] == weights;
      }
      combined := weights;
      CombinesKeepsPositive(ws, combined);
      assert combined != [] by { FirstCombined(ws, combined); }
      if |weights| == 1 {
        total, weights := 1, [weights[0].(amount := 1)];
        assert Sum(weights) == 1;
        FewKeepOrder(combined, weights);
        return;
      }
      var shift := ShiftFor(didOverflow, total);
      ScaledTotal(ws, combined, didOverflow, total);
      ScaledKeepsOrder(combined, shift);
      if shift == 0 {
        return;
      }
      weights, total := ScaleLoop(weights, shift);
      ScaledPositive(combined, shift);
    }
  }

  lemma FewKeepOrder(ws: seq<Weight>, out: seq<Weight>)
    requires |out| == |ws| <= 1
    ensures KeepsOrder(ws, out)
  {
  }

  /** What scaling does to the total of a combined list. */
  lemma ScaledTotal(ws: seq<Weight>, combined: seq<Weight>, didOverflow: bool, total: nat)
    requires Positive(ws) && Combines(ws, combined) && Positive(combined) && |combined| > 1
    requires total <= MAX64 && Sum(ws) == total + if didOverflow then TWO64 else 0
    ensures var shift := ShiftFor(didOverflow, total);
      && (shift == 0 ==> ScaledAll(combined, 0) == combined && total == Sum(combined) <= MAX32)
      && (Roomy(combined, didOverflow) ==> 0 <= Sum(ScaledAll(combined, shift)) <= MAX32)
  {
    hide Combines;
    var shift := ShiftFor(didOverflow, total);
    ShiftRange(didOverflow, total);
    if !didOverflow {
      CombinesKeepsSum(ws, combined);
    }
    ScaledPositive(combined, shift);
    SumNonNegative(ScaledAll(combined, shift));
    if shift == 0 {
      Unscaled(combined);
    } else if !didOverflow && |combined| <= 0x8000_0000 {
      RoomWithoutOverflow(Sum(combined), |combined|, shift);
      ScaledFits(combined, shift);
    } else if Roomy(combined, didOverflow) {
      ScaledFits(combined, shift);
    }
  }

  lemma FirstCombined(ws: seq<Weight>, out: seq<Weight>)
    requires Combines(ws, out) && ws != []
    ensures out != []
  {
    assert HasTarget(out, ws[0].target);
  }

  lemma {:induction false} Unscaled(ws: seq<Weight>)
    requires Positive(ws)
    ensures ScaledAll(ws, 0) == ws
  {
    forall k | 0 <= k < |ws| ensures ScaledAll(ws, 0)[k] == ws[k] {
    }
  }

  lemma {:induction false} SumNonNegative(ws: seq<Weight>)
    requires Positive(ws)
    ensures Sum(ws) >= |ws|
  {
    if ws != [] {
      SumNonNegative(ws[1..]);
    }
  }

  lemma SumGrows(ws: seq<Weight>, w: Weight)
    ensures Sum(ws + [w]) == Sum(ws) + w.amount
  {
    SumAppend(ws, [w]);
    assert Sum([w]) == w.amount;
  }

  lemma NoSum()
    ensures Sum([]) == 0
  {
  }

  lemma AddModulo(a: int, b: int)
    ensures (a % TWO64 + b) % TWO64 == (a + b) % TWO64
  {
  }

  /** Scale each weight and add up the total again, in 64 bits. */
  method ScaleLoop(ws: seq<Weight>, shift: nat) returns (out: seq<Weight>, total: int)
    requires Positive(ws)
    ensures out == ScaledAll(ws, shift) && total == Sum(out) % TWO64
  {
    hide Sum, ShiftRightAndRound;
    out, total := [], 0;
    NoSum();
    for i := 0 to |ws|
      invariant |out| == i && total == Sum(out) % TWO64
      invariant forall k | 0 <= k < i :: out[k] == Scaled(ws[k], shift)
    {
      var w := ws[i].(amount := Max(1, ShiftRightAndRound(ws[i].amount, shift)));
      SumGrows(out, w);
      AddModulo(Sum(out), w.amount);
      out := out + [w];
      total := (total + w.amount) % TWO64;
    }
    assert out == ScaledAll(ws, shift);
  }

  /** With an overflow behind it the total need not fit: two edges of the largest weight are
      scaled to 2^31 each, and 2^32 is one too many. */
  lemma OverflowBreaksTotal()
    ensures var ws := [Weight(Local, 0, MAX64), Weight(Local, 1, MAX64)];
      && Combines(ws, ws) && Sum(ws) == MAX64 - 1 + TWO64
      && Sum(ScaledAll(ws, ShiftFor(true, MAX64 - 1))) == MAX32 + 1
  {
    var ws := [Weight(Local, 0, MAX64), Weight(Local, 1, MAX64)];
    DistinctCombines(ws, 2);
    assert ws[..2] == ws;
    Pow2Values();
    ShiftRounds(MAX64, 33);
    assert ws[1..] == [ws[1]] && ws[1..][1..] == [];
    assert Sum(ws[1..]) == MAX64;
    var s := ScaledAll(ws, 33);
    assert s[0].amount == s[1].amount == 0x8000_0000;
    assert s[1..] == [s[1]] && s[1..][1..] == [];
    assert Sum(s[1..]) == 0x8000_0000;
  }

  /** The largest scaled weight, and who reaches it. */
  lemma ScaledToTop(w: Weight)
    requires 0 < w.amount <= MAX64
    ensures 1 <= Scaled(w, 33).amount <= 0x8000_0000
    ensures Scaled(w, 33).amount == 0x8000_0000 <==> w.amount >= TWO64 - TWO32
  {
    Pow2Values();
    ScaledIs(w, 33);
  }

  /** With two targets the total fails to fit after an overflow exactly if both weights are
      within 2^32 of 2^64. */
  lemma TwoTargetsOverflow(v: Weight, w: Weight)
    requires 0 < v.amount <= MAX64 && 0 < w.amount <= MAX64
    ensures Sum(ScaledAll([v, w], 33)) > MAX32 <==> v.amount >= TWO64 - TWO32 && w.amount >= TWO64 - TWO32
  {
    hide Scaled;
    ScaledToTop(v);
    ScaledToTop(w);
    var s := ScaledAll([v, w], 33);
    assert s == [Scaled(v, 33), Scaled(w, 33)];
    assert s[1..] == [Scaled(w, 33)] && s[1..][1..] == [];
    assert Sum(s[1..]) == Scaled(w, 33).amount;
  }
}
