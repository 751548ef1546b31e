/** Handing out the mass of a block: to its successors in the loop, to the loop's headers and to
    its exits. */
module BlockFrequencies {
  import opened BlockMasses
  import opened BlockWeights
  import opened BlockDistributions

  // ----- What each weight takes -----

  /** What a weight takes of a mass when the weights left add up to total. */
  function ShareOf(mass: int, w: int, total: int): int
    requires total > 0
  {
    mass * Probability(w, total) / PROB_ONE
  }

  /** The mass each weight takes in turn from what is left. */
  function Shares(ws: seq<Weight>, mass: int): (r: seq<int>)
    requires Positive(ws)
    ensures |r| == |ws|
  {
    if ws == [] then []
    else
      SumNonNegative(ws);
      var share := ShareOf(mass, ws[0].amount, Sum(ws));
      [share] + Shares(ws[1..], mass - share)
  }

  function Total(ms: seq<int>): int { if ms == [] then 0 else ms[0] + Total(ms[1..]) }

  lemma ShareBounds(mass: int, w: int, total: int)
    requires 0 < w <= total <= MAX32 && 0 <= mass <= MAX64
    ensures 0 <= ShareOf(mass, w, total) <= mass && (w == total ==> ShareOf(mass, w, total) == mass)
  {
    ProbabilityBounds(w, total);
    ScaleIsExact(mass, Probability(w, total));
  }

  /** No share exceeds what is left, and together they are the whole mass. */
  lemma {:induction false} SharesConserve(ws: seq<Weight>, mass: int)
    requires Positive(ws) && ws != [] && Sum(ws) <= MAX32 && 0 <= mass <= MAX64
    ensures Total(Shares(ws, mass)) == mass
    ensures forall k | 0 <= k < |ws| :: 0 <= Shares(ws, mass)[k] <= mass
  {
    hide ShareOf;
    SumNonNegative(ws[1..]);
    ShareBounds(mass, ws[0].amount, Sum(ws));
    var share := ShareOf(mass, ws[0].amount, Sum(ws));
    if ws[1..] == [] {
      assert Shares(ws, mass) == [share];
    } else {
      SharesConserve(ws[1..], mass - share);
      assert Shares(ws, mass) == [share] + Shares(ws[1..], mass - share);
    }
  }

  /** Each weight in turn gets its part of the mass that is left, up to rounding. */
  ghost predicate FairShares(ws: seq<Weight>, taken: seq<int>, mass: int) {
    |taken| == |ws| && forall k | 0 <= k < |ws| :: IsFair(taken[k], ws[k].amount, Sum(ws[k..]), mass - Total(taken[..k]))
  }

  lemma {:induction false} SharesFair(ws: seq<Weight>, mass: int)
    requires Positive(ws) && Sum(ws) <= MAX32 && 0 <= mass <= MAX64
    ensures FairShares(ws, Shares(ws, mass), mass)
  {
    hide IsFair, ShareOf, FairShares;
    if ws == [] {
      NoneFair(mass);
    } else {
      SumNonNegative(ws[1..]);
      ShareBounds(mass, ws[0].amount, Sum(ws));
      FirstFair(mass, ws[0].amount, Sum(ws));
      var share := ShareOf(mass, ws[0].amount, Sum(ws));
      SharesFair(ws[1..], mass - share);
      OneMoreFair(ws, share, Shares(ws[1..], mass - share), mass);
    }
  }

  lemma NoneFair(mass: int)
    ensures FairShares([], [], mass)
  {
  }

  lemma OneMoreFair(ws: seq<Weight>, share: int, rest: seq<int>, mass: int)
    requires ws != [] && IsFair(share, ws[0].amount, Sum(ws), mass) && FairShares(ws[1..], rest, mass - share)
    ensures FairShares(ws, [share] + rest, mass)
  {
    hide IsFair, Sum, Total;
    var taken := [share] + rest;
    forall k | 0 <= k < |ws| ensures IsFair(taken[k], ws[k].amount, Sum(ws[k..]), mass - Total(taken[..k])) {
      if k == 0 {
        NothingTaken();
        assert ws[0..] == ws && taken[..0] == [];
      } else {
        LaterTaken(share, rest, k);
        assert ws[1..][k - 1..] == ws[k..];
        assert IsFair(rest[k - 1], ws[1..][k - 1].amount, Sum(ws[1..][k - 1..]), mass - share - Total(rest[..k - 1]));
      }
    }
  }

  lemma NothingTaken()
    ensures Total([]) == 0
  {
  }

  lemma LaterTaken(share: int, rest: seq<int>, k: nat)
    requires 0 < k <= |rest| + 1
    ensures Total(([share] + rest)[..k]) == share + Total(rest[..k - 1])
  {
    assert ([share] + rest)[..k][1..] == rest[..k - 1];
  }

  lemma FirstFair(mass: int, w: int, total: int)
    requires 0 <= mass && 0 < w <= total
    ensures IsFair(ShareOf(mass, w, total), w, total, mass)
  {
    ShareIsFair(mass, w, total);
  }

  lemma {:induction false} TotalUpdate(ms: seq<int>, i: int, v: int)
    requires 0 <= i < |ms|
    ensures Total(ms[i := v]) == Total(ms) - ms[i] + v
  {
    if i > 0 {
      TotalUpdate(ms[1..], i - 1, v);
      assert ms[i := v][1..] == ms[1..][i - 1 := v];
    } else {
      assert ms[0 := v][1..] == ms[1..];
    }
  }

  lemma {:induction false} PartOfTotal(ms: seq<int>, i: int)
    requires 0 <= i < |ms| && forall k | 0 <= k < |ms| :: ms[k] >= 0
    ensures 0 <= ms[i] <= Total(ms)
  {
    TotalNonNegative(ms[1..]);
    if i > 0 {
      PartOfTotal(ms[1..], i - 1);
    }
  }

  lemma {:induction false} TotalNonNegative(ms: seq<int>)
    requires forall k | 0 <= k < |ms| :: ms[k] >= 0
    ensures Total(ms) >= 0
  {
    if ms != [] {
      TotalNonNegative(ms[1..]);
    }
  }

  lemma {:induction false} TotalAppend(ms: seq<int>, m: int)
    ensures Total(ms + [m]) == Total(ms) + m
  {
    if ms == [] {
      assert ms + [m] == [m] && [m][1..] == [];
    } else {
      TotalAppend(ms[1..], m);
      assert (ms + [m])[1..] == ms[1..] + [m];
    }
  }

  function TotalExits(es: seq<(int, int)>): int { if es == [] then 0 else TotalExits(es[..|es| - 1]) + es[|es| - 1].1 }

  /** What reaches one target along the edges of one type. */
  function Credit(ws: seq<Weight>, taken: seq<int>, typ: DistType, t: int): int
    requires |ws| == |taken|
  {
    if ws == [] then 0
    else
      var n := |ws| - 1;
      Credit(ws[..n], taken[..n], typ, t) + if ws[n].typ == typ && ws[n].target == t then taken[n] else 0
  }

  function ExitsOf(ws: seq<Weight>, taken: seq<int>): seq<(int, int)>
    requires |ws| == |taken|
  {
    if ws == [] then []
    else
      var n := |ws| - 1;
      ExitsOf(ws[..n], taken[..n]) + if ws[n].typ == Exit then [(ws[n].target, taken[n])] else []
  }

  lemma CreditStep(ws: seq<Weight>, taken: seq<int>, n: int, typ: DistType, t: int)
    requires |ws| == |taken| && 0 <= n < |ws|
    ensures Credit(ws[..n + 1], taken[..n + 1], typ, t)
         == Credit(ws[..n], taken[..n], typ, t) + if ws[n].typ == typ && ws[n].target == t then taken[n] else 0
  {
    assert ws[..n + 1][..n] == ws[..n] && taken[..n + 1][..n] == taken[..n];
  }

  lemma {:induction false} CreditNonNegative(ws: seq<Weight>, taken: seq<int>, typ: DistType, t: int)
    requires |ws| == |taken| && forall k | 0 <= k < |taken| :: taken[k] >= 0
    ensures Credit(ws, taken, typ, t) >= 0
  {
    if ws != [] {
      CreditNonNegative(ws[..|ws| - 1], taken[..|ws| - 1], typ, t);
    }
  }

  // ----- Loops -----

  class LoopData {
    var nodes: seq<int>
    var numHeaders: nat
    var backedgeMass: seq<int>
    var exits: seq<(int, int)>

    ghost predicate Valid()
      reads this
    {
      && 1 <= numHeaders <= |nodes| && |backedgeMass| == numHeaders
      && (forall i, j | 0 <= i < j < numHeaders :: nodes[i] < nodes[j])
    }

    constructor Natural(header: int)
      ensures Valid() && (forall b :: IsHeader(b) <==> b == header)
      ensures nodes == [header] && exits == [] && backedgeMass == [0]
    {
      nodes, numHeaders, backedgeMass, exits := [header], 1, [0], [];
      new;
      assert nodes[..numHeaders] == [header];
    }

    constructor Irreducible(headers: seq<int>, others: seq<int>)
      requires headers != [] && forall i, j | 0 <= i < j < |headers| :: headers[i] < headers[j]
      ensures Valid() && (forall b :: IsHeader(b) <==> b in headers)
      ensures nodes == headers + others && numHeaders == |headers| && exits == []
      ensures forall k | 0 <= k < |headers| :: backedgeMass[k] == 0
    {
      nodes, numHeaders, exits := headers + others, |headers|, [];
      backedgeMass := seq(|headers|, i => 0);
      new;
      assert nodes[..numHeaders] == headers;
    }

    predicate IsIrreducible()
      reads this
    {
      numHeaders > 1
    }

    ghost predicate IsHeader(b: int)
      requires Valid()
      reads this
    {
      b in nodes[..numHeaders]
    }

    /** The first header not before b, by binary search. */
    method LowerBound(b: int) returns (lo: nat)
      requires Valid()
      ensures lo <= numHeaders
      ensures forall i | 0 <= i < lo :: nodes[i] < b
      ensures forall i | lo <= i < numHeaders :: b <= nodes[i]
    {
      var hi := numHeaders;
      lo := 0;
      while lo < hi
        invariant lo <= hi <= numHeaders
        invariant forall i | 0 <= i < lo :: nodes[i] < b
        invariant forall i | hi <= i < numHeaders :: b <= nodes[i]
      {
        var mid := (lo + hi) / 2;
        if nodes[mid] < b {
          lo := mid + 1;
        } else {
          hi := mid;
        }
      }
    }

    /** A loop with one header compares with it; an irreducible one searches its sorted headers. */
    method TestHeader(b: int) returns (r: bool)
      requires Valid()
      ensures r <==> IsHeader(b)
    {
      if IsIrreducible() {
        var i := LowerBound(b);
        r := i < numHeaders && nodes[i] == b;
        assert r ==> b == nodes[..numHeaders][i];
      } else {
        r := b == nodes[0];
        assert nodes[..numHeaders] == [nodes[0]];
      }
    }

    method GetHeaderIndex(b: int) returns (i: nat)
      requires Valid() && IsHeader(b)
      ensures i < numHeaders && nodes[i] == b
    {
      if IsIrreducible() {
        i := LowerBound(b);
      } else {
        i := 0;
      }
    }
  }

  // ----- Distributing -----

  /** A place for the mass: a block for a local edge, the loop for backedges and exits. */
  ghost predicate Routable(w: Weight, blocks: nat, outer: LoopData?)
    requires outer != null ==> outer.Valid()
    reads outer
  {
    match w.typ
    case Local => 0 <= w.target < blocks
    case Backedge => outer != null && outer.IsHeader(w.target)
    case Exit => outer != null
  }

  lemma CombinedRoutable(ws: seq<Weight>, out: seq<Weight>, blocks: nat, outer: LoopData?)
    requires outer != null ==> outer.Valid()
    requires Combines(ws, out) && forall k | 0 <= k < |ws| :: Routable(ws[k], blocks, outer)
    ensures forall k | 0 <= k < |out| :: Routable(out[k], blocks, outer)
  {
    forall k | 0 <= k < |out| ensures Routable(out[k], blocks, outer) {
      assert Fits(ws, out[k]);
      var j :| 0 <= j < |ws| && ws[j].target == out[k].target;
      assert Routable(ws[j], blocks, outer);
    }
  }

  /** Without an overflow, 2^31 edges are few enough. */
  lemma FewEdgesAreRoomy(ws: seq<Weight>, c: seq<Weight>)
    requires |ws| <= 0x8000_0000 && Combines(ws, c)
    ensures Roomy(c, false)
  {
    forall t ensures t in Targets(c) ==> t in Targets(ws) {
      TargetsAre(c, t);
      TargetsAre(ws, t);
      if HasTarget(c, t) {
        var k :| 0 <= k < |c| && c[k].target == t;
        assert Fits(ws, c[k]);
      }
    }
    DistinctCounted(c);
    TargetsCount(ws);
    SubsetSize(Targets(c), Targets(ws));
  }

  lemma {:induction false} DistinctCounted(ws: seq<Weight>)
    requires Distinct(ws)
    ensures |Targets(ws)| == |ws|
  {
    if ws != [] {
      DistinctCounted(ws[1..]);
      TargetsAre(ws[1..], ws[0].target);
    }
  }

  lemma {:induction false} SubsetSize(a: set<int>, b: set<int>)
    requires a <= b
    ensures |a| <= |b|
  {
    assert |b| == |b - a| + |a * b| && a * b == a;
  }

  lemma NormalizedRoutable(ws: seq<Weight>, combined: seq<Weight>, out: seq<Weight>, blocks: nat, outer: LoopData?)
    requires outer != null ==> outer.Valid()
    requires Combines(ws, combined) && forall k | 0 <= k < |ws| :: Routable(ws[k], blocks, outer)
    requires |out| == |combined|
    requires forall k | 0 <= k < |out| :: out[k] == combined[k].(amount := out[k].amount)
    ensures forall k | 0 <= k < |out| :: Routable(out[k], blocks, outer)
  {
    CombinedRoutable(ws, combined, blocks, outer);
    forall k | 0 <= k < |out| ensures Routable(out[k], blocks, outer) {
      assert Routable(combined[k], blocks, outer);
    }
  }

  /** What one weight adds to the mass of a target. */
  function Part(w: Weight, taken: int, typ: DistType, t: int): int {
    if w.typ == typ && w.target == t then taken else 0
  }

  ghost predicate InMassRange(ms: seq<int>) {
    forall k | 0 <= k < |ms| :: 0 <= ms[k] <= MAX64
  }

  /** The masses that distributing updates: of the blocks, and of the loop's headers and exits. */
  datatype Books = Books(blocks: seq<int>, headers: seq<int>, backedges: seq<int>, exits: seq<(int, int)>) {
    ghost predicate Valid() {
      InMassRange(blocks) && InMassRange(backedges) && |backedges| == |headers|
    }
  }

  /** All the mass on the books. */
  ghost function OnBooks(b: Books): int { Total(b.blocks) + Total(b.backedges) + TotalExits(b.exits) }

  /** So much more mass cannot saturate any entry. */
  ghost predicate HasRoom(b: Books, mass: int) { Total(b.blocks) + mass <= MAX64 && Total(b.backedges) + mass <= MAX64 }

  ghost function BooksOf(outer: LoopData?, masses: array<int>): Books
    requires outer != null ==> outer.Valid()
    reads outer, masses
  {
    if outer == null then Books(masses[..], [], [], [])
    else Books(masses[..], outer.nodes[..outer.numHeaders], outer.backedgeMass, outer.exits)
  }

  /** Each block and header has grown, saturating, by what its edges took; the exits are listed. */
  ghost predicate Posted(before: Books, after: Books, ws: seq<Weight>, taken: seq<int>)
    requires |ws| == |taken|
  {
    && before.Valid() && after.Valid()
    && after.headers == before.headers && |after.blocks| == |before.blocks|
    && (forall b | 0 <= b < |before.blocks| :: after.blocks[b] == AddMass(before.blocks[b], Credit(ws, taken, Local, b)))
    && (forall h | 0 <= h < |before.headers| ::
          after.backedges[h] == AddMass(before.backedges[h], Credit(ws, taken, Backedge, before.headers[h])))
    && after.exits == before.exits + ExitsOf(ws, taken)
  }

  lemma NothingPosted(books: Books)
    requires books.Valid()
    ensures Posted(books, books, [], [])
  {
  }

  lemma SingleCredit(w: Weight, taken: int, typ: DistType, t: int)
    ensures Credit([w], [taken], typ, t) == Part(w, taken, typ, t)
  {
    assert [w][..0] == [] && [taken][..0] == [];
  }

  lemma AddMassTwice(m: int, a: int, b: int)
    requires 0 <= m <= MAX64 && 0 <= a && 0 <= b
    ensures AddMass(AddMass(m, a), b) == AddMass(m, a + b) && 0 <= AddMass(m, a) <= MAX64
  {
  }

  lemma ExitStep(ws: seq<Weight>, taken: seq<int>, n: int)
    requires |ws| == |taken| && 0 <= n < |ws|
    ensures ExitsOf(ws[..n + 1], taken[..n + 1]) == ExitsOf(ws[..n], taken[..n]) + ExitsOf([ws[n]], [taken[n]])
  {
    assert ws[..n + 1][..n] == ws[..n] && taken[..n + 1][..n] == taken[..n];
    assert [ws[n]][..0] == [] && [taken[n]][..0] == [];
  }

  /** Saturating additions one after the other are one saturating addition of the sum. */
  lemma PostedStep(b0: Books, b1: Books, b2: Books, ws: seq<Weight>, taken: seq<int>, n: int)
    requires |ws| == |taken| && 0 <= n < |ws| && forall k | 0 <= k < |taken| :: taken[k] >= 0
    requires Posted(b0, b1, ws[..n], taken[..n]) && Posted(b1, b2, [ws[n]], [taken[n]])
    ensures Posted(b0, b2, ws[..n + 1], taken[..n + 1])
  {
    forall typ, t ensures Credit(ws[..n + 1], taken[..n + 1], typ, t)
                       == Credit(ws[..n], taken[..n], typ, t) + Credit([ws[n]], [taken[n]], typ, t)
    {
      CreditStep(ws, taken, n, typ, t);
      SingleCredit(ws[n], taken[n], typ, t);
    }
    forall b | 0 <= b < |b0.blocks|
      ensures b2.blocks[b] == AddMass(b0.blocks[b], Credit(ws[..n + 1], taken[..n + 1], Local, b))
    {
      CreditNonNegative(ws[..n], taken[..n], Local, b);
      CreditNonNegative([ws[n]], [taken[n]], Local, b);
      AddMassTwice(b0.blocks[b], Credit(ws[..n], taken[..n], Local, b), Credit([ws[n]], [taken[n]], Local, b));
    }
    forall h | 0 <= h < |b0.headers|
      ensures b2.backedges[h] == AddMass(b0.backedges[h], Credit(ws[..n + 1], taken[..n + 1], Backedge, b0.headers[h]))
    {
      CreditNonNegative(ws[..n], taken[..n], Backedge, b0.headers[h]);
      CreditNonNegative([ws[n]], [taken[n]], Backedge, b0.headers[h]);
      AddMassTwice(b0.backedges[h], Credit(ws[..n], taken[..n], Backedge, b0.headers[h]),
                   Credit([ws[n]], [taken[n]], Backedge, b0.headers[h]));
    }
    ExitStep(ws, taken, n);
  }

  /** So much mass has been booked, and none of it twice. */
  ghost predicate Booked(before: Books, after: Books, mass: int) {
    && OnBooks(after) == OnBooks(before) + mass
    && Total(after.blocks) <= Total(before.blocks) + mass && Total(after.backedges) <= Total(before.backedges) + mass
  }

  lemma AddedToBlocks(b: Books, t: int, taken: int)
    requires b.Valid() && 0 <= t < |b.blocks| && 0 <= taken && HasRoom(b, taken)
    ensures Booked(b, b.(blocks := b.blocks[t := AddMass(b.blocks[t], taken)]), taken)
  {
    PartOfTotal(b.blocks, t);
    TotalUpdate(b.blocks, t, AddMass(b.blocks[t], taken));
  }

  lemma AddedToBackedges(b: Books, h: int, taken: int)
    requires b.Valid() && 0 <= h < |b.backedges| && 0 <= taken && HasRoom(b, taken)
    ensures Booked(b, b.(backedges := b.backedges[h := AddMass(b.backedges[h], taken)]), taken)
  {
    PartOfTotal(b.backedges, h);
    TotalUpdate(b.backedges, h, AddMass(b.backedges[h], taken));
  }

  lemma AddedToExits(b: Books, t: int, taken: int)
    requires 0 <= taken
    ensures Booked(b, b.(exits := b.exits + [(t, taken)]), taken)
  {
    assert (b.exits + [(t, taken)])[..|b.exits|] == b.exits;
  }

  lemma PostedToBlock(b: Books, w: Weight, taken: int)
    requires b.Valid() && w.typ == Local && 0 <= w.target < |b.blocks| && 0 <= taken
    ensures Posted(b, b.(blocks := b.blocks[w.target := AddMass(b.blocks[w.target], taken)]), [w], [taken])
  {
    OneCredited(w, taken);
  }

  lemma PostedToHeader(b: Books, w: Weight, h: nat, taken: int)
    requires b.Valid() && w.typ == Backedge && h < |b.headers| && b.headers[h] == w.target && 0 <= taken
    requires forall i, j | 0 <= i < j < |b.headers| :: b.headers[i] < b.headers[j]
    ensures Posted(b, b.(backedges := b.backedges[h := AddMass(b.backedges[h], taken)]), [w], [taken])
  {
    OneCredited(w, taken);
  }

  lemma PostedToExit(b: Books, w: Weight, taken: int)
    requires b.Valid() && w.typ == Exit && 0 <= taken
    ensures Posted(b, b.(exits := b.exits + [(w.target, taken)]), [w], [taken])
  {
    OneCredited(w, taken);
  }

  lemma OneCredited(w: Weight, taken: int)
    ensures forall typ, t :: Credit([w], [taken], typ, t) == if w.typ == typ && w.target == t then taken else 0
    ensures ExitsOf([w], [taken]) == if w.typ == Exit then [(w.target, taken)] else []
  {
    assert [w][..0] == [] && [taken][..0] == [];
    forall typ, t ensures Credit([w], [taken], typ, t) == if w.typ == typ && w.target == t then taken else 0 {
      SingleCredit(w, taken, typ, t);
    }
  }

  /** Assign the mass one weight has taken. */
  method Assign(w: Weight, taken: int, outer: LoopData?, masses: array<int>)
    requires (outer != null ==> outer.Valid()) && BooksOf(outer, masses).Valid() && 0 <= taken
    requires Routable(w, masses.Length, outer)
    modifies outer, masses
    ensures outer != null ==> outer.Valid() && outer.nodes == old(outer.nodes) && outer.numHeaders == old(outer.numHeaders)
    ensures Posted(old(BooksOf(outer, masses)), BooksOf(outer, masses), [w], [taken])
    ensures old(HasRoom(BooksOf(outer, masses), taken)) ==> Booked(old(BooksOf(outer, masses)), BooksOf(outer, masses), taken)
  {
    hide HasRoom, Booked, Posted;
    ghost var books := BooksOf(outer, masses);
    match w.typ
    case Local =>
      masses[w.target] := AddMass(masses[w.target], taken);
      assert BooksOf(outer, masses) == books.(blocks := books.blocks[w.target := AddMass(books.blocks[w.target], taken)]);
      PostedToBlock(books, w, taken);
      if HasRoom(books, taken) {
        AddedToBlocks(books, w.target, taken);
      }
    case Backedge =>
      var h := outer.GetHeaderIndex(w.target);
      outer.backedgeMass := outer.backedgeMass[h := AddMass(outer.backedgeMass[h], taken)];
      assert BooksOf(outer, masses) == books.(backedges := books.backedges[h := AddMass(books.backedges[h], taken)]);
      PostedToHeader(books, w, h, taken);
      if HasRoom(books, taken) {
        AddedToBackedges(books, h, taken);
      }
    case Exit =>
      outer.exits := outer.exits + [(w.target, taken)];
      assert BooksOf(outer, masses) == books.(exits := books.exits + [(w.target, taken)]);
      PostedToExit(books, w, taken);
      AddedToExits(books, w.target, taken);
  }

  /** Distribute the mass of a block along its edges: every unit ends up at one target, if the
      block has an edge at all. */
  method DistributeMass(mass: int, outer: LoopData?, dist: Distribution, masses: array<int>) returns (ghost taken: seq<int>)
    requires 0 <= mass <= MAX64 && (outer != null ==> outer.Valid()) && BooksOf(outer, masses).Valid()
    requires dist.Valid() && TypesAgree(dist.weights)
    requires forall c | Combines(dist.weights, c) :: Roomy(c, dist.didOverflow)
    requires forall k | 0 <= k < |dist.weights| :: Routable(dist.weights[k], masses.Length, outer)
    modifies dist, outer, masses
    ensures outer != null ==> outer.Valid() && outer.nodes == old(outer.nodes) && outer.numHeaders == old(outer.numHeaders)
    ensures Positive(dist.weights) && dist.total == Sum(dist.weights) <= MAX32
    ensures dist.weights == [] <==> old(dist.weights) == []
    ensures taken == Shares(dist.weights, mass) && Total(taken) == if dist.weights == [] then 0 else mass
    ensures FairShares(dist.weights, taken, mass)
    ensures old(HasRoom(BooksOf(outer, masses), mass)) ==>
      Booked(old(BooksOf(outer, masses)), BooksOf(outer, masses), if dist.weights == [] then 0 else mass)
    ensures Posted(old(BooksOf(outer, masses)), BooksOf(outer, masses), dist.weights, taken)
  {
    hide Combines, TypesAgree, ShiftFor, Posted, FairShares, Booked, HasRoom;
    ghost var ws0 := dist.weights;
    ghost var combined := dist.Normalize();
    var ws := dist.weights;
    assert Roomy(combined, dist.didOverflow);
    NormalizedRoutable(ws0, combined, ws, masses.Length, outer);
    taken := HandOut(mass, outer, dist, masses);
  }

  lemma NoShares(mass: int)
    ensures Shares([], mass) == []
  {
  }

  lemma NoWeights()
    ensures Sum([]) == 0
  {
  }

  /** The first i weights have been dealt with. */
  ghost predicate HandedOut(books: Books, now: Books, ws: seq<Weight>, taken: seq<int>, i: nat, mass: int)
    requires |ws| == |taken| && i <= |ws|
  {
    && Posted(books, now, ws[..i], taken[..i])
    && (HasRoom(books, mass) ==> Booked(books, now, Total(taken[..i])))
  }

  lemma NothingHanded(books: Books, ws: seq<Weight>, taken: seq<int>, mass: int)
    requires |ws| == |taken| && books.Valid()
    ensures HandedOut(books, books, ws, taken, 0, mass)
  {
    hide Posted;
    NothingPosted(books);
    assert ws[..0] == [] && taken[..0] == [];
  }

  lemma HandedSoFar(books: Books, now: Books, ws: seq<Weight>, taken: seq<int>, i: nat, mass: int)
    requires |ws| == |taken| && i <= |ws| && HandedOut(books, now, ws, taken, i, mass)
    ensures now.Valid()
    ensures i == |ws| ==> Posted(books, now, ws, taken) && (HasRoom(books, mass) ==> Booked(books, now, Total(taken)))
  {
    hide Posted, HasRoom, Booked;
    PostedValid(books, now, ws[..i], taken[..i]);
    assert i == |ws| ==> ws[..i] == ws && taken[..i] == taken;
  }

  lemma HandedNext(books: Books, b1: Books, b2: Books, ws: seq<Weight>, taken: seq<int>, i: nat, mass: int)
    requires |ws| == |taken| && i < |ws| && (forall k | 0 <= k < |taken| :: taken[k] >= 0)
    requires HandedOut(books, b1, ws, taken, i, mass) && Total(taken[..i]) + taken[i] <= mass
    requires Posted(b1, b2, [ws[i]], [taken[i]]) && (HasRoom(b1, taken[i]) ==> Booked(b1, b2, taken[i]))
    ensures HandedOut(books, b2, ws, taken, i + 1, mass)
  {
    hide Posted, HasRoom, Booked;
    PostedStep(books, b1, b2, ws, taken, i);
    BookedRoom(books, b1, mass, Total(taken[..i]), taken[i]);
    BookedStep(books, b1, b2, Total(taken[..i]), taken[i]);
    assert taken[..i + 1] == taken[..i] + [taken[i]];
    TotalAppend(taken[..i], taken[i]);
  }

  method HandOut(mass: int, outer: LoopData?, dist: Distribution, masses: array<int>) returns (ghost taken: seq<int>)
    requires 0 <= mass <= MAX64 && (outer != null ==> outer.Valid()) && BooksOf(outer, masses).Valid()
    requires Positive(dist.weights) && dist.total == Sum(dist.weights) <= MAX32
    requires forall k | 0 <= k < |dist.weights| :: Routable(dist.weights[k], masses.Length, outer)
    modifies outer, masses
    ensures outer != null ==> outer.Valid() && outer.nodes == old(outer.nodes) && outer.numHeaders == old(outer.numHeaders)
    ensures taken == Shares(dist.weights, mass) && Total(taken) == if dist.weights == [] then 0 else mass
    ensures FairShares(dist.weights, taken, mass)
    ensures old(HasRoom(BooksOf(outer, masses), mass)) ==>
      Booked(old(BooksOf(outer, masses)), BooksOf(outer, masses), if dist.weights == [] then 0 else mass)
    ensures Posted(old(BooksOf(outer, masses)), BooksOf(outer, masses), dist.weights, taken)
  {
    hide Posted, Shares, Probability, IsFair, FairShares, Booked, HasRoom, OnBooks, HandedOut, Total, Sum;
    var ws := dist.weights;
    var d := new DitheringDistributer(dist.total, mass);
    taken := Shares(ws, mass);
    SharesFair(ws, mass);
    if ws != [] {
      SharesConserve(ws, mass);
    } else {
      NoShares(mass);
    }
    NothingTaken();
    NoWeights();
    assert ws[0..] == ws && taken[0..] == taken && ws[..0] == [] && taken[..0] == [];
    ghost var books := BooksOf(outer, masses);
    NothingHanded(books, ws, taken, mass);
    for i := 0 to |ws|
      invariant 0 <= d.remMass <= mass && d.remWeight == Sum(ws[i..])
      invariant taken[i..] == Shares(ws[i..], d.remMass)
      invariant outer != null ==> outer.Valid() && outer.nodes == old(outer.nodes) && outer.numHeaders == old(outer.numHeaders)
      invariant HandedOut(books, BooksOf(outer, masses), ws, taken, i, mass) && Total(taken[..i]) + d.remMass == mass
    {
      NextShare(ws, taken, i, d.remMass);
      var t := d.TakeMass(ws[i].amount);
      ghost var b1 := BooksOf(outer, masses);
      HandedSoFar(books, b1, ws, taken, i, mass);
      Assign(ws[i], t, outer, masses);
      assert taken[..i + 1] == taken[..i] + [t];
      TotalAppend(taken[..i], t);
      HandedNext(books, b1, BooksOf(outer, masses), ws, taken, i, mass);
    }
    HandedSoFar(books, BooksOf(outer, masses), ws, taken, |ws|, mass);
    assert ws[..|ws|] == ws && taken[..|ws|] == taken;
  }

  lemma NothingBooked(books: Books)
    ensures Booked(books, books, 0)
  {
  }

  lemma BookedRoom(b0: Books, b1: Books, mass: int, done: int, more: int)
    requires done + more <= mass
    ensures HasRoom(b0, mass) && Booked(b0, b1, done) ==> HasRoom(b1, more)
  {
  }

  lemma BookedStep(b0: Books, b1: Books, b2: Books, done: int, more: int)
    ensures Booked(b0, b1, done) && Booked(b1, b2, more) ==> Booked(b0, b2, done + more)
  {
  }

  lemma PostedValid(before: Books, after: Books, ws: seq<Weight>, taken: seq<int>)
    requires |ws| == |taken| && Posted(before, after, ws, taken)
    ensures after.Valid()
  {
  }

  lemma NextShare(ws: seq<Weight>, taken: seq<int>, n: int, mass: int)
    requires Positive(ws) && |ws| == |taken| && 0 <= n < |ws| && taken[n..] == Shares(ws[n..], mass)
    ensures Sum(ws[n..]) == ws[n].amount + Sum(ws[n + 1..]) && Sum(ws[n + 1..]) >= 0
    ensures Sum(ws[n..]) <= Sum(ws)
    ensures taken[n] == ShareOf(mass, ws[n].amount, Sum(ws[n..]))
    ensures taken[n + 1..] == Shares(ws[n + 1..], mass - taken[n])
  {
    assert ws[n..][1..] == ws[n + 1..] && ws[n..][0] == ws[n];
    assert taken[n + 1..] == taken[n..][1..] && taken[n] == taken[n..][0];
    assert ws == ws[..n] + ws[n..];
    SumAppend(ws[..n], ws[n..]);
    SumNonNegative(ws[..n]);
    SumNonNegative(ws[n + 1..]);
  }
}
