/** The edge weights of a distribution, and the two ways of combining edges to the same target. */
module BlockWeights {
  import opened Wrappers
  import opened BlockMasses

  datatype DistType = Local | Exit | Backedge

  datatype Weight = Weight(typ: DistType, target: int, amount: int)

  function Sum(ws: seq<Weight>): int {
    if ws == [] then 0 else ws[0].amount + Sum(ws[1..])
  }

  /** The total weight of the edges to one target. */
  function AmountFor(ws: seq<Weight>, t: int): int {
    if ws == [] then 0 else (if ws[0].target == t then ws[0].amount else 0) + AmountFor(ws[1..], t)
  }

  ghost predicate Positive(ws: seq<Weight>) {
    forall k | 0 <= k < |ws| :: ws[k].amount > 0
  }

  ghost predicate Distinct(ws: seq<Weight>) {
    forall i, j | 0 <= i < j < |ws| :: ws[i].target != ws[j].target
  }

  /** Edges to one target are of one type. */
  ghost predicate TypesAgree(ws: seq<Weight>) {
    forall i, j | 0 <= i < |ws| && 0 <= j < |ws| && ws[i].target == ws[j].target :: ws[i].typ == ws[j].typ
  }

  ghost predicate HasTarget(ws: seq<Weight>, t: int) {
    exists k :: 0 <= k < |ws| && ws[k].target == t
  }

  function Capped(x: int): int { if x > MAX64 then MAX64 else x }

  /** `o` carries the type of the edges of `ws` to its target, and their sum saturated at 64 bits. */
  ghost predicate Fits(ws: seq<Weight>, o: Weight) {
    && HasTarget(ws, o.target)
    && o.amount == Capped(AmountFor(ws, o.target))
    && (forall j | 0 <= j < |ws| && ws[j].target == o.target :: ws[j].typ == o.typ)
  }

  /** `out` has exactly one fitting weight per target of `ws`. */
  ghost predicate Combines(ws: seq<Weight>, out: seq<Weight>) {
    && Distinct(out)
    && (forall k | 0 <= k < |out| :: Fits(ws, out[k]))
    && (forall j | 0 <= j < |ws| :: HasTarget(out, ws[j].target))
  }

  /** Combining leaves no choice but the order: any two results hold the same weights. */
  lemma CombinesUnique(ws: seq<Weight>, a: seq<Weight>, b: seq<Weight>)
    requires Combines(ws, a) && Combines(ws, b)
    ensures multiset(a) == multiset(b)
  {
    SameMembers(ws, a, b);
    SameMembers(ws, b, a);
    forall w ensures multiset(a)[w] == multiset(b)[w] {
      DistinctOnce(a, w);
      DistinctOnce(b, w);
    }
  }

  lemma SameMembers(ws: seq<Weight>, a: seq<Weight>, b: seq<Weight>)
    requires Combines(ws, a) && Combines(ws, b)
    ensures forall w | w in a :: w in b
  {
    forall w | w in a ensures w in b {
      var i :| 0 <= i < |a| && a[i] == w;
      assert Fits(ws, a[i]);
      var j :| 0 <= j < |ws| && ws[j].target == w.target;
      assert HasTarget(b, ws[j].target);
      var k :| 0 <= k < |b| && b[k].target == w.target;
      assert Fits(ws, b[k]);
      assert b[k] == a[i];
    }
  }

  lemma {:induction false} DistinctOnce(ws: seq<Weight>, w: Weight)
    requires Distinct(ws)
    ensures multiset(ws)[w] == if w in ws then 1 else 0
  {
    if ws != [] {
      assert ws == [ws[0]] + ws[1..];
      DistinctOnce(ws[1..], w);
      assert multiset(ws) == multiset{ws[0]} + multiset(ws[1..]);
      if w == ws[0] {
        assert w !in ws[1..];
      }
    }
  }

  // ----- Sums -----

  lemma {:induction false} AmountAppend(xs: seq<Weight>, ys: seq<Weight>, t: int)
    ensures AmountFor(xs + ys, t) == AmountFor(xs, t) + AmountFor(ys, t)
  {
    if xs == [] {
      assert xs + ys == ys;
    } else {
      AmountAppend(xs[1..], ys, t);
      assert (xs + ys)[1..] == xs[1..] + ys;
    }
  }

  lemma {:induction false} SumAppend(xs: seq<Weight>, ys: seq<Weight>)
    ensures Sum(xs + ys) == Sum(xs) + Sum(ys)
  {
    if xs == [] {
      assert xs + ys == ys;
    } else {
      SumAppend(xs[1..], ys);
      assert (xs + ys)[1..] == xs[1..] + ys;
    }
  }

  lemma {:induction false} AmountBounds(ws: seq<Weight>, t: int)
    requires Positive(ws)
    ensures 0 <= AmountFor(ws, t) <= Sum(ws)
    ensures AmountFor(ws, t) > 0 <==> HasTarget(ws, t)
  {
    if ws != [] {
      AmountBounds(ws[1..], t);
      if HasTarget(ws[1..], t) {
        var k :| 0 <= k < |ws[1..]| && ws[1..][k].target == t;
        assert ws[k + 1].target == t;
      }
      if HasTarget(ws, t) && ws[0].target != t {
        var k :| 0 <= k < |ws| && ws[k].target == t;
        assert ws[1..][k - 1].target == t;
      }
    }
  }

  function Without(ws: seq<Weight>, t: int): seq<Weight> {
    if ws == [] then [] else if ws[0].target == t then Without(ws[1..], t) else [ws[0]] + Without(ws[1..], t)
  }

  lemma {:induction false} WithoutAmounts(ws: seq<Weight>, t: int)
    requires Positive(ws)
    ensures Positive(Without(ws, t)) && Sum(Without(ws, t)) == Sum(ws) - AmountFor(ws, t)
    ensures forall u :: AmountFor(Without(ws, t), u) == if u == t then 0 else AmountFor(ws, u)
  {
    if ws != [] {
      WithoutAmounts(ws[1..], t);
      if ws[0].target != t {
        assert ([ws[0]] + Without(ws[1..], t))[1..] == Without(ws[1..], t);
      }
    }
  }

  /** Combining without saturation keeps the total. */
  lemma {:induction false} CombinedSum(ws: seq<Weight>, out: seq<Weight>)
    requires Positive(ws) && Distinct(out)
    requires forall t :: AmountFor(ws, t) > 0 <==> HasTarget(out, t)
    requires forall k | 0 <= k < |out| :: out[k].amount == AmountFor(ws, out[k].target)
    ensures Sum(out) == Sum(ws)
    decreases |out|
  {
    if out == [] {
      if ws != [] {
        assert HasTarget(ws, ws[0].target);
        AmountBounds(ws, ws[0].target);
      }
    } else {
      var t, ws' := out[0].target, Without(ws, out[0].target);
      WithoutAmounts(ws, t);
      forall u ensures AmountFor(ws', u) > 0 <==> HasTarget(out[1..], u) {
        if HasTarget(out[1..], u) {
          var k :| 0 <= k < |out[1..]| && out[1..][k].target == u;
          assert out[k + 1].target == u;
        }
        if u != t && HasTarget(out, u) {
          var k :| 0 <= k < |out| && out[k].target == u;
          assert out[1..][k - 1].target == u;
        }
      }
      CombinedSum(ws', out[1..]);
    }
  }

  lemma CombinesKeepsSum(ws: seq<Weight>, out: seq<Weight>)
    requires Positive(ws) && Combines(ws, out) && Sum(ws) <= MAX64
    ensures Sum(out) == Sum(ws) && (ws != [] ==> out != [])
  {
    forall t ensures AmountFor(ws, t) > 0 <==> HasTarget(out, t) {
      AmountBounds(ws, t);
      if HasTarget(ws, t) {
        var j :| 0 <= j < |ws| && ws[j].target == t;
        assert HasTarget(out, ws[j].target);
      }
      if HasTarget(out, t) {
        var k :| 0 <= k < |out| && out[k].target == t;
        assert Fits(ws, out[k]);
      }
    }
    forall k | 0 <= k < |out| ensures out[k].amount == AmountFor(ws, out[k].target) {
      AmountBounds(ws, out[k].target);
      assert Fits(ws, out[k]);
    }
    CombinedSum(ws, out);
    if ws != [] {
      assert HasTarget(out, ws[0].target);
    }
  }

  lemma CombinesKeepsPositive(ws: seq<Weight>, out: seq<Weight>)
    requires Positive(ws) && Combines(ws, out)
    ensures Positive(out) && InRange(out)
  {
    forall k | 0 <= k < |out| ensures 0 < out[k].amount <= MAX64 {
      AmountBounds(ws, out[k].target);
      assert Fits(ws, out[k]);
    }
  }

  // ----- Rearranging -----

  /** Taking one copy of an element out of two permutations leaves permutations. */
  lemma TakeOut(a: seq<Weight>, b: seq<Weight>) returns (k: int)
    requires multiset(a) == multiset(b) && a != []
    ensures 0 <= k < |b| && b[k] == a[0]
    ensures multiset(a[1..]) == multiset(b[..k] + b[k + 1..])
  {
    assert a[0] in multiset(b);
    k :| 0 <= k < |b| && b[k] == a[0];
    assert b == b[..k] + [b[k]] + b[k + 1..];
    assert a == [a[0]] + a[1..];
    assert multiset(b[..k] + b[k + 1..]) == multiset(b) - multiset{b[k]};
    assert multiset(a[1..]) == multiset(a) - multiset{a[0]};
  }

  /** What an edge list says about a target does not depend on its order. */
  lemma {:induction false} PermutedAmount(a: seq<Weight>, b: seq<Weight>, t: int)
    requires multiset(a) == multiset(b)
    ensures AmountFor(a, t) == AmountFor(b, t)
  {
    if a == [] {
      assert |multiset(a)| == |multiset(b)|;
    } else {
      var k := TakeOut(a, b);
      PermutedAmount(a[1..], b[..k] + b[k + 1..], t);
      AmountAppend(b[..k], b[k + 1..], t);
      AmountAppend(b[..k], b[k..], t);
      assert b == b[..k] + b[k..] && b[k..][1..] == b[k + 1..];
    }
  }

  lemma PermutedMember(a: seq<Weight>, b: seq<Weight>, j: int) returns (k: int)
    requires multiset(a) == multiset(b) && 0 <= j < |a|
    ensures 0 <= k < |b| && b[k] == a[j]
  {
    assert a[j] in multiset(a);
    assert a[j] in multiset(b);
    k :| 0 <= k < |b| && b[k] == a[j];
  }

  lemma PermutedFits(a: seq<Weight>, b: seq<Weight>, o: Weight)
    requires multiset(a) == multiset(b) && Fits(a, o)
    ensures Fits(b, o)
  {
    PermutedAmount(a, b, o.target);
    var j :| 0 <= j < |a| && a[j].target == o.target;
    var k := PermutedMember(a, b, j);
    assert b[k].target == o.target;
    forall j | 0 <= j < |b| && b[j].target == o.target ensures b[j].typ == o.typ {
      var k := PermutedMember(b, a, j);
    }
  }

  lemma PermutedCombines(a: seq<Weight>, b: seq<Weight>, out: seq<Weight>)
    requires multiset(a) == multiset(b) && Combines(a, out)
    ensures Combines(b, out)
  {
    forall k | 0 <= k < |out| ensures Fits(b, out[k]) {
      PermutedFits(a, b, out[k]);
    }
    forall j | 0 <= j < |b| ensures HasTarget(out, b[j].target) {
      var k := PermutedMember(b, a, j);
      assert HasTarget(out, a[k].target);
    }
  }

  // ----- Combining by sorting -----

  /** Add one weight into another for the same target; an empty one is replaced. */
  function CombineWeight(w: Weight, other: Weight): Weight {
    if w.amount == 0 then other else w.(amount := AddMass(w.amount, other.amount))
  }

  ghost predicate SortedByTarget(ws: seq<Weight>) {
    forall i, j | 0 <= i < j < |ws| :: ws[i].target <= ws[j].target
  }

  lemma AmountOneMore(ws: seq<Weight>, w: Weight, t: int)
    ensures AmountFor(ws + [w], t) == AmountFor(ws, t) + (if t == w.target then w.amount else 0)
  {
    AmountAppend(ws, [w], t);
    assert AmountFor([w], t) == if t == w.target then w.amount else 0;
  }

  lemma HasTargetGrows(ws: seq<Weight>, more: seq<Weight>, t: int)
    ensures HasTarget(ws + more, t) <==> HasTarget(ws, t) || HasTarget(more, t)
  {
    if HasTarget(ws, t) {
      var k :| 0 <= k < |ws| && ws[k].target == t;
      assert (ws + more)[k].target == t;
    }
    if HasTarget(more, t) {
      var k :| 0 <= k < |more| && more[k].target == t;
      assert (ws + more)[|ws| + k].target == t;
    }
    if HasTarget(ws + more, t) {
      var k :| 0 <= k < |ws + more| && (ws + more)[k].target == t;
      assert if k < |ws| then ws[k].target == t else more[k - |ws|].target == t;
    }
  }

  /** A further edge to another target changes nothing for this one. */
  lemma FitsOther(ws: seq<Weight>, w: Weight, o: Weight)
    requires Fits(ws, o) && o.target != w.target
    ensures Fits(ws + [w], o)
  {
    AmountOneMore(ws, w, o.target);
    HasTargetGrows(ws, [w], o.target);
  }

  lemma FitsSame(ws: seq<Weight>, w: Weight, o: Weight)
    requires Fits(ws, o) && o.target == w.target && o.typ == w.typ && 0 < w.amount && Positive(ws)
    ensures Fits(ws + [w], CombineWeight(o, w))
  {
    AmountOneMore(ws, w, o.target);
    AmountBounds(ws, o.target);
    HasTargetGrows(ws, [w], o.target);
  }

  lemma FitsNew(ws: seq<Weight>, w: Weight)
    requires !HasTarget(ws, w.target) && Positive(ws) && 0 < w.amount <= MAX64
    ensures Fits(ws + [w], w)
  {
    AmountOneMore(ws, w, w.target);
    AmountBounds(ws, w.target);
    assert (ws + [w])[|ws|].target == w.target;
  }

  ghost predicate InRange(ws: seq<Weight>) {
    forall k | 0 <= k < |ws| :: ws[k].amount <= MAX64
  }

  lemma SetDistinct(out: seq<Weight>, k: int, o: Weight)
    requires Distinct(out) && 0 <= k < |out| && o.target == out[k].target
    ensures Distinct(out[k := o])
    ensures forall t :: HasTarget(out[k := o], t) <==> HasTarget(out, t)
  {
    forall t ensures HasTarget(out[k := o], t) <==> HasTarget(out, t) {
      if HasTarget(out, t) {
        var i :| 0 <= i < |out| && out[i].target == t;
        assert out[k := o][i].target == t;
      }
    }
  }

  /** One more edge to a target that has a weight already. */
  lemma CombineInto(ws: seq<Weight>, out: seq<Weight>, w: Weight, k: int)
    requires Combines(ws, out) && Positive(ws) && 0 < w.amount
    requires 0 <= k < |out| && out[k].target == w.target && out[k].typ == w.typ
    ensures Combines(ws + [w], out[k := CombineWeight(out[k], w)])
  {
    var out' := out[k := CombineWeight(out[k], w)];
    SetDistinct(out, k, CombineWeight(out[k], w));
    forall i | 0 <= i < |out'| ensures Fits(ws + [w], out'[i]) {
      if i == k {
        FitsSame(ws, w, out[k]);
      } else {
        assert out[i].target != out[k].target;
        FitsOther(ws, w, out[i]);
      }
    }
    assert HasTarget(out, w.target);
  }

  /** The first edge to a target. */
  lemma CombineNew(ws: seq<Weight>, out: seq<Weight>, w: Weight)
    requires Combines(ws, out) && Positive(ws) && 0 < w.amount <= MAX64
    requires !HasTarget(ws, w.target)
    ensures Combines(ws + [w], out + [w])
  {
    forall i | 0 <= i < |out| ensures out[i].target != w.target && Fits(ws + [w], out[i]) {
      assert Fits(ws, out[i]);
      FitsOther(ws, w, out[i]);
    }
    FitsNew(ws, w);
    forall j | 0 <= j < |ws + [w]| ensures HasTarget(out + [w], (ws + [w])[j].target) {
      HasTargetGrows(out, [w], (ws + [w])[j].target);
      if j < |ws| {
        assert HasTarget(out, ws[j].target);
      } else {
        assert [w][0].target == w.target;
      }
    }
  }

  /** Edges to distinct targets are combined already. */
  lemma {:induction false} DistinctCombines(ws: seq<Weight>, n: int)
    requires Distinct(ws) && Positive(ws) && InRange(ws) && 0 <= n <= |ws|
    ensures Combines(ws[..n], ws[..n])
  {
    if n > 0 {
      DistinctCombines(ws, n - 1);
      assert ws[..n] == ws[..n - 1] + [ws[n - 1]];
      CombineNew(ws[..n - 1], ws[..n - 1], ws[n - 1]);
    }
  }

  /** In a sorted list a target that differs from the one before it is new. */
  lemma SortedBreak(ws: seq<Weight>, n: int)
    requires SortedByTarget(ws) && 0 < n < |ws| && ws[n - 1].target != ws[n].target
    ensures !HasTarget(ws[..n], ws[n].target)
  {
    forall k | 0 <= k < n ensures ws[..n][k].target != ws[n].target {
      assert ws[k].target <= ws[n - 1].target <= ws[n].target;
    }
  }

  lemma NothingCombines()
    ensures Combines([], [])
    ensures forall t :: !HasTarget([], t)
  {
  }

  function InsertSorted(w: Weight, ws: seq<Weight>): (r: seq<Weight>) {
    if ws == [] || w.target <= ws[0].target then [w] + ws else [ws[0]] + InsertSorted(w, ws[1..])
  }

  lemma {:induction false} InsertedMembers(w: Weight, ws: seq<Weight>)
    ensures multiset(InsertSorted(w, ws)) == multiset(ws) + multiset{w}
  {
    if ws != [] && w.target > ws[0].target {
      InsertedMembers(w, ws[1..]);
      assert ws == [ws[0]] + ws[1..];
    }
  }

  lemma {:induction false} InsertedSorted(w: Weight, ws: seq<Weight>)
    requires SortedByTarget(ws)
    ensures SortedByTarget(InsertSorted(w, ws))
  {
    if ws != [] && w.target > ws[0].target {
      InsertedSorted(w, ws[1..]);
      InsertedMembers(w, ws[1..]);
      var rest := InsertSorted(w, ws[1..]);
      forall k | 0 <= k < |rest| ensures ws[0].target <= rest[k].target {
        assert rest[k] in multiset(rest);
        assert rest[k] == w || rest[k] in ws[1..];
      }
    }
  }

  method SortByTarget(ws: seq<Weight>) returns (a: array<Weight>)
    ensures fresh(a) && multiset(a[..]) == multiset(ws) && SortedByTarget(a[..])
  {
    var s: seq<Weight> := [];
    for i := 0 to |ws|
      invariant multiset(s) == multiset(ws[..i]) && SortedByTarget(s)
    {
      assert ws[..i + 1] == ws[..i] + [ws[i]];
      InsertedMembers(ws[i], s);
      InsertedSorted(ws[i], s);
      s := InsertSorted(ws[i], s);
    }
    assert ws[..|ws|] == ws;
    a := new Weight[|s|](i requires 0 <= i < |s| => s[i]);
    assert a[..] == s;
  }

  /** Combine adjacent edges in place; the combined list ends at the returned index. */
  method CompactAdjacent(a: array<Weight>) returns (o: nat)
    requires SortedByTarget(a[..]) && Positive(a[..]) && InRange(a[..]) && TypesAgree(a[..])
    modifies a
    ensures o <= a.Length && Combines(old(a[..]), a[..o])
  {
    hide Combines, Fits, Distinct, HasTarget;
    ghost var ws := a[..];
    NothingCombines();
    var i, l := 0, 0;
    o := 0;
    while i != a.Length
      invariant 0 <= o <= i == l <= a.Length
      invariant forall k | i <= k < a.Length :: a[k] == ws[k]
      invariant Combines(ws[..i], a[..o])
      invariant i < a.Length ==> !HasTarget(ws[..i], ws[i].target)
      invariant i == 0 ==> o == 0
    {
      CombineNew(ws[..i], a[..o], ws[i]);
      a[o] := a[i];
      assert a[..o + 1] == a[..o] + [ws[i]];
      l := l + 1;
      assert ws[..l] == ws[..i] + [ws[i]];
      while l != a.Length && a[i].target == a[l].target
        invariant o <= i < l <= a.Length
        invariant forall k | l <= k < a.Length :: a[k] == ws[k]
        invariant Combines(ws[..l], a[..o + 1])
        invariant a[i].target == ws[i].target == ws[l - 1].target == a[o].target && a[o].typ == ws[i].typ
      {
        CombineInto(ws[..l], a[..o + 1], ws[l], o);
        assert ws[..l + 1] == ws[..l] + [ws[l]];
        ghost var out := a[..o + 1];
        a[o] := CombineWeight(a[o], a[l]);
        assert a[..o + 1] == out[o := CombineWeight(out[o], ws[l])];
        l := l + 1;
      }
      if l < a.Length {
        SortedBreak(ws, l);
      }
      o, i := o + 1, l;
    }
    assert ws[..i] == ws;
  }

  lemma PermutedPositive(a: seq<Weight>, b: seq<Weight>)
    requires multiset(a) == multiset(b) && Positive(a) && InRange(a) && TypesAgree(a)
    ensures Positive(b) && InRange(b) && TypesAgree(b)
  {
    forall j | 0 <= j < |b| ensures 0 < b[j].amount <= MAX64 {
      var k := PermutedMember(b, a, j);
    }
    forall i, j | 0 <= i < |b| && 0 <= j < |b| && b[i].target == b[j].target ensures b[i].typ == b[j].typ {
      var i' := PermutedMember(b, a, i);
      var j' := PermutedMember(b, a, j);
    }
  }

  method CombineWeightsBySorting(ws: seq<Weight>) returns (out: seq<Weight>)
    requires Positive(ws) && InRange(ws) && TypesAgree(ws)
    ensures Combines(ws, out)
  {
    var a := SortByTarget(ws);
    PermutedPositive(ws, a[..]);
    ghost var sorted := a[..];
    var n := CompactAdjacent(a);
    PermutedCombines(sorted, ws, a[..n]);
    out := a[..n];
  }

  // ----- Combining by hashing -----

  /** The table holds one fitting weight for each target met so far. */
  ghost predicate Tabled(ws: seq<Weight>, table: map<int, Weight>) {
    && (forall t :: t in table <==> HasTarget(ws, t))
    && (forall t | t in table :: table[t].target == t && Fits(ws, table[t]))
  }

  lemma TableOneMore(ws: seq<Weight>, table: map<int, Weight>, w: Weight)
    requires Tabled(ws, table) && Positive(ws + [w]) && TypesAgree(ws + [w]) && 0 < w.amount <= MAX64
    ensures Tabled(ws + [w], table[w.target := if w.target in table then CombineWeight(table[w.target], w) else w])
  {
    var o := if w.target in table then CombineWeight(table[w.target], w) else w;
    var table' := table[w.target := o];
    assert Positive(ws) by { assert forall i | 0 <= i < |ws| :: (ws + [w])[i] == ws[i]; }
    forall t ensures t in table' <==> HasTarget(ws + [w], t) {
      HasTargetGrows(ws, [w], t);
      assert [w][0].target == w.target;
    }
    if w.target in table {
      assert HasTarget(ws, w.target);
      var j :| 0 <= j < |ws| && ws[j].target == w.target;
      assert (ws + [w])[j] == ws[j] && (ws + [w])[|ws|] == w;
      FitsSame(ws, w, table[w.target]);
    } else {
      FitsNew(ws, w);
    }
    forall t | t in table' && t != w.target ensures Fits(ws + [w], table'[t]) {
      FitsOther(ws, w, table[t]);
    }
  }

  function Targets(ws: seq<Weight>): set<int> {
    if ws == [] then {} else {ws[0].target} + Targets(ws[1..])
  }

  lemma {:induction false} TargetsAre(ws: seq<Weight>, t: int)
    ensures t in Targets(ws) <==> HasTarget(ws, t)
  {
    if ws != [] {
      TargetsAre(ws[1..], t);
      HasTargetGrows(ws[..1], ws[1..], t);
      assert ws == ws[..1] + ws[1..];
      assert HasTarget(ws[..1], t) <==> ws[..1][0].target == t;
    }
  }

  /** As many targets as edges means no two edges share one. */
  lemma {:induction false} TargetsCount(ws: seq<Weight>)
    ensures |Targets(ws)| <= |ws|
    ensures |Targets(ws)| == |ws| ==> Distinct(ws)
  {
    if ws != [] {
      TargetsCount(ws[1..]);
      if |Targets(ws)| == |ws| {
        assert ws[0].target !in Targets(ws[1..]);
        TargetsAre(ws[1..], ws[0].target);
        assert forall j | 0 < j < |ws| :: ws[j] == ws[1..][j - 1];
      }
    }
  }

  method CombineWeightsByHashing(ws: seq<Weight>) returns (out: seq<Weight>)
    requires Positive(ws) && InRange(ws) && TypesAgree(ws)
    ensures Combines(ws, out)
  {
    var combined: map<int, Weight> := map[];
    for i := 0 to |ws|
      invariant Tabled(ws[..i], combined)
    {
      assert ws[..i + 1] == ws[..i] + [ws[i]];
      TableOneMore(ws[..i], combined, ws[i]);
      var t := ws[i].target;
      combined := combined[t := if t in combined then CombineWeight(combined[t], ws[i]) else ws[i]];
    }
    assert ws[..|ws|] == ws;
    if |ws| == |combined| {
      Untouched(ws, combined);
      return ws;
    }
    out := Drain(ws, combined);
  }

  lemma Untouched(ws: seq<Weight>, table: map<int, Weight>)
    requires Tabled(ws, table) && |table| == |ws| && Positive(ws) && InRange(ws)
    ensures Combines(ws, ws)
  {
    TargetsCount(ws);
    forall t ensures t in table.Keys <==> t in Targets(ws) {
      TargetsAre(ws, t);
    }
    assert table.Keys == Targets(ws);
    DistinctCombines(ws, |ws|);
    assert ws[..|ws|] == ws;
  }

  /** Empty the table in whatever order it iterates. */
  method Drain(ghost ws: seq<Weight>, table: map<int, Weight>) returns (out: seq<Weight>)
    requires Tabled(ws, table)
    ensures Combines(ws, out)
  {
    out := [];
    var keys := table.Keys;
    while keys != {}
      invariant keys <= table.Keys && Distinct(out)
      invariant forall k | 0 <= k < |out| :: out[k].target in table.Keys - keys && out[k] == table[out[k].target]
      invariant forall t | t in table.Keys - keys :: HasTarget(out, t)
    {
      ghost var some := SomeElement(keys);
      var t :| t in keys;
      forall u | u in table.Keys - (keys - {t}) ensures HasTarget(out + [table[t]], u) {
        HasTargetGrows(out, [table[t]], u);
        assert [table[t]][0].target == t;
      }
      out := out + [table[t]];
      keys := keys - {t};
    }
    forall j | 0 <= j < |ws| ensures HasTarget(out, ws[j].target) {
      assert HasTarget(ws, ws[j].target);
      assert ws[j].target in table;
    }
  }

  /** A hash table keeps long lists linear; either way the result combines the list. */
  method CombineWeights(ws: seq<Weight>) returns (out: seq<Weight>)
    requires Positive(ws) && InRange(ws) && TypesAgree(ws)
    ensures Combines(ws, out)
  {
    if |ws| > 128 {
      out := CombineWeightsByHashing(ws);
    } else {
      out := CombineWeightsBySorting(ws);
    }
  }
}
