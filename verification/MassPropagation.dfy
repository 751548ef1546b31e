/** Propagating the mass of a block to its successors: classifying its edges, and distributing. */
module MassPropagation {
  import opened BlockMasses
  import opened BlockWeights
  import opened BlockDistributions
  import opened BlockFrequencies
  import opened IrreducibleHeaders

  /** What the working data says of a block: the node standing for it now, and whether that
      node's containing loop is the one being processed. */
  datatype Block = Block(resolved: int, inLoop: bool)

  datatype Edge = Edge(succ: int, weight: int)

  ghost function HeadersOf(outer: LoopData?): seq<int>
    requires outer != null ==> outer.Valid()
    reads outer
  {
    if outer == null then [] else outer.nodes[..outer.numHeaders]
  }

  ghost predicate BlocksValid(blocks: seq<Block>) {
    forall b | 0 <= b < |blocks| :: 0 <= blocks[b].resolved < |blocks|
  }

  function TypeOf(headers: seq<int>, blocks: seq<Block>, t: int): DistType
    requires 0 <= t < |blocks|
  {
    if t in headers then Backedge else if blocks[t].inLoop then Local else Exit
  }

  /** A local edge that goes back in the block order, from a block that is no header. */
  predicate Aborts(headers: seq<int>, blocks: seq<Block>, pred: int, t: int)
    requires 0 <= t < |blocks|
  {
    TypeOf(headers, blocks, t) == Local && t < pred && pred !in headers
  }

  function WeightOf(headers: seq<int>, blocks: seq<Block>, e: Edge): Weight
    requires 0 <= e.succ < |blocks| && 0 <= blocks[e.succ].resolved < |blocks|
  {
    var t := blocks[e.succ].resolved;
    Weight(TypeOf(headers, blocks, t), t, if e.weight == 0 then 1 else e.weight)
  }

  /** Backedges inside the region are handled: only a region without several headers may abort,
      and only an irreducible one has a header with a later local predecessor. */
  ghost predicate Handled(headers: seq<int>, blocks: seq<Block>, pred: int, t: int)
    requires 0 <= t < |blocks|
  {
    && (Aborts(headers, blocks, pred, t) ==> |headers| <= 1)
    && (TypeOf(headers, blocks, t) == Local && t < pred && pred in headers ==> |headers| > 1)
  }

  method AddToDist(dist: Distribution, outer: LoopData?, blocks: seq<Block>, pred: int, e: Edge) returns (ok: bool)
    requires dist.Valid() && (outer != null ==> outer.Valid()) && BlocksValid(blocks)
    requires 0 <= e.succ < |blocks| && 0 <= e.weight <= MAX64 && Sum(dist.weights) + Max(1, e.weight) < 2 * TWO64
    requires Handled(HeadersOf(outer), blocks, pred, blocks[e.succ].resolved)
    modifies dist
    ensures dist.Valid()
    ensures ok <==> !Aborts(HeadersOf(outer), blocks, pred, blocks[e.succ].resolved)
    ensures dist.weights == old(dist.weights) + if ok then [WeightOf(HeadersOf(outer), blocks, e)] else []
    ensures ok ==>
      var w, t := dist.weights[|dist.weights| - 1], blocks[e.succ].resolved;
      && w.target == t && w.amount == (if e.weight == 0 then 1 else e.weight)
      && (w.typ == Backedge <==> outer != null && outer.IsHeader(t))
      && (w.typ == Exit <==> !(outer != null && outer.IsHeader(t)) && !blocks[t].inLoop)
    ensures var t := blocks[e.succ].resolved;
      !ok <==> t < pred && blocks[t].inLoop && !(outer != null && (outer.IsHeader(t) || outer.IsHeader(pred)))
    ensures dist.didOverflow <==> Sum(dist.weights) > MAX64
  {
    var weight := if e.weight == 0 then 1 else e.weight;
    var resolved := blocks[e.succ].resolved;
    var toHeader, fromHeader := false, false;
    if outer != null {
      toHeader := outer.TestHeader(resolved);
      fromHeader := outer.TestHeader(pred);
    }
    OverflowKnown(dist);
    if toHeader {
      dist.Add(resolved, weight, Backedge);
      return true;
    }
    if !blocks[resolved].inLoop {
      dist.Add(resolved, weight, Exit);
      return true;
    }
    if resolved < pred {
      if !fromHeader {
        assert outer == null || !outer.IsIrreducible();
        return false;
      }
      assert outer != null && outer.IsIrreducible() && !toHeader;
    }
    dist.Add(resolved, weight, Local);
    return true;
  }

  lemma OverflowKnown(dist: Distribution)
    requires dist.Valid()
    ensures dist.didOverflow <==> Sum(dist.weights) > MAX64
  {
    SumNonNegative(dist.weights);
  }

  // ----- Propagating -----

  ghost predicate EdgesValid(blocks: seq<Block>, edges: seq<Edge>) {
    forall k | 0 <= k < |edges| :: 0 <= edges[k].succ < |blocks| && 0 <= edges[k].weight <= MAX64
  }

  function WeightsOf(headers: seq<int>, blocks: seq<Block>, edges: seq<Edge>): (r: seq<Weight>)
    requires BlocksValid(blocks) && EdgesValid(blocks, edges)
    ensures |r| == |edges| && forall k | 0 <= k < |edges| :: r[k] == WeightOf(headers, blocks, edges[k])
  {
    seq(|edges|, k requires 0 <= k < |edges| => WeightOf(headers, blocks, edges[k]))
  }

  /** The type of an edge depends on its target only, so edges that are combined agree on it. */
  lemma WeightsAgree(headers: seq<int>, blocks: seq<Block>, edges: seq<Edge>)
    requires BlocksValid(blocks) && EdgesValid(blocks, edges)
    ensures TypesAgree(WeightsOf(headers, blocks, edges)) && Positive(WeightsOf(headers, blocks, edges))
  {
  }

  lemma PrefixSum(ws: seq<Weight>, n: int)
    requires Positive(ws) && 0 <= n < |ws|
    ensures ws[..n + 1] == ws[..n] + [ws[n]] && Sum(ws[..n]) + ws[n].amount <= Sum(ws)
  {
    assert ws == ws[..n] + ws[n..] && ws[n..][1..] == ws[n + 1..];
    SumAppend(ws[..n], ws[n..]);
    SumNonNegative(ws[n + 1..]);
  }

  /** Some edge of the block is a backedge the region cannot handle. */
  ghost predicate SomeAborts(headers: seq<int>, blocks: seq<Block>, pred: int, edges: seq<Edge>)
    requires BlocksValid(blocks) && EdgesValid(blocks, edges)
  {
    exists k :: 0 <= k < |edges| && Aborts(headers, blocks, pred, blocks[edges[k].succ].resolved)
  }

  /** Distribute the mass of `node` over its edges, unless one of them is a backedge that the
      region cannot handle. On success nothing of the mass is lost, if the block has an edge at
      all; on failure nothing moves. */
  method PropagateMassToSuccessors(outer: LoopData?, node: int, mass: int, edges: seq<Edge>,
                                   blocks: seq<Block>, masses: array<int>)
    returns (ok: bool, ghost ws: seq<Weight>, ghost taken: seq<int>)
    requires 0 <= mass <= MAX64 && (outer != null ==> outer.Valid()) && BooksOf(outer, masses).Valid()
    requires BlocksValid(blocks) && EdgesValid(blocks, edges) && |blocks| == masses.Length
    requires outer == null ==> forall b | 0 <= b < |blocks| :: blocks[b].inLoop
    requires var ws := WeightsOf(HeadersOf(outer), blocks, edges);
      Sum(ws) < 2 * TWO64 && forall c | Combines(ws, c) :: Roomy(c, Sum(ws) > MAX64)
    requires forall k | 0 <= k < |edges| :: Handled(HeadersOf(outer), blocks, node, blocks[edges[k].succ].resolved)
    modifies outer, masses
    ensures outer != null ==> outer.Valid() && outer.nodes == old(outer.nodes) && outer.numHeaders == old(outer.numHeaders)
    ensures ok <==> !SomeAborts(HeadersOf(outer), blocks, node, edges)
    ensures !ok ==> BooksOf(outer, masses) == old(BooksOf(outer, masses))
    ensures ok ==> (
              && Positive(ws) && Sum(ws) <= MAX32
              && taken == Shares(ws, mass) && Total(taken) == (if edges == [] then 0 else mass)
              && FairShares(ws, taken, mass)
              && (old(HasRoom(BooksOf(outer, masses), mass)) ==>
                    Booked(old(BooksOf(outer, masses)), BooksOf(outer, masses), if edges == [] then 0 else mass))
              && Posted(old(BooksOf(outer, masses)), BooksOf(outer, masses), ws, taken))
  {
    hide Combines, TypesAgree, Roomy, Posted, Shares, SomeAborts, FairShares, Booked, HasRoom;
    ws, taken := [], [];
    ghost var books := BooksOf(outer, masses);
    var dist := new Distribution();
    ok := CollectEdges(dist, outer, node, edges, blocks);
    assert BooksOf(outer, masses) == books;
    if !ok {
      return;
    }
    WeightsAgree(HeadersOf(outer), blocks, edges);
    WeightsRoutable(outer, blocks, edges);
    taken := DistributeMass(mass, outer, dist, masses);
    ws := dist.weights;
  }

  lemma WeightsRoutable(outer: LoopData?, blocks: seq<Block>, edges: seq<Edge>)
    requires (outer != null ==> outer.Valid()) && BlocksValid(blocks) && EdgesValid(blocks, edges)
    requires outer == null ==> forall b | 0 <= b < |blocks| :: blocks[b].inLoop
    ensures var ws := WeightsOf(HeadersOf(outer), blocks, edges);
      forall k | 0 <= k < |ws| :: Routable(ws[k], |blocks|, outer)
  {
  }

  /** Add the edges one after the other; stop at the first that cannot be handled. */
  method CollectEdges(dist: Distribution, outer: LoopData?, node: int, edges: seq<Edge>, blocks: seq<Block>) returns (ok: bool)
    requires dist.Valid() && dist.weights == [] && !dist.didOverflow && (outer != null ==> outer.Valid())
    requires BlocksValid(blocks) && EdgesValid(blocks, edges)
    requires Sum(WeightsOf(HeadersOf(outer), blocks, edges)) < 2 * TWO64
    requires forall k | 0 <= k < |edges| :: Handled(HeadersOf(outer), blocks, node, blocks[edges[k].succ].resolved)
    modifies dist
    ensures ok <==> !SomeAborts(HeadersOf(outer), blocks, node, edges)
    ensures ok ==> dist.Valid() && dist.weights == WeightsOf(HeadersOf(outer), blocks, edges)
    ensures dist.didOverflow <==> Sum(dist.weights) > MAX64
  {
    ghost var headers := HeadersOf(outer);
    ghost var all := WeightsOf(headers, blocks, edges);
    WeightsAgree(headers, blocks, edges);
    for k := 0 to |edges|
      invariant dist.Valid() && dist.weights == all[..k]
      invariant dist.didOverflow <==> Sum(dist.weights) > MAX64
      invariant forall i | 0 <= i < k :: !Aborts(headers, blocks, node, blocks[edges[i].succ].resolved)
    {
      PrefixSum(all, k);
      ok := AddToDist(dist, outer, blocks, node, edges[k]);
      if !ok {
        return;
      }
    }
    assert all[..|edges|] == all;
    ok := true;
  }

  // ----- After the headers have been chosen -----

  /** Once the headers of a component are those found, no edge inside it is a backedge that
      cannot be handled: distributing mass in the new loop never aborts. */
  lemma IrreducibleLoopsAreHandled(preds: map<int, seq<int>>, scc: set<int>, headers: seq<int>, others: seq<int>,
                                   blocks: seq<Block>, pred: int, t: int)
    requires Split(preds, scc, headers, others) && |headers| > 1
    requires 0 <= t < |blocks| && HasPred(preds, pred, t) && pred in scc && (blocks[t].inLoop ==> t in scc)
    ensures Handled(headers, blocks, pred, t) && !Aborts(headers, blocks, pred, t)
  {
    if t in others {
      OthersComeAfter(preds, scc, headers, others, pred, t);
    }
  }

  /** An accepted edge is among the predecessors of its target. */
  lemma AcceptedIsPred(lookup: map<int, IrrNode>, accepted: seq<(int, int)>, p: int, t: int)
    requires Mirrored(lookup, accepted) && p in lookup && t in lookup && (p, t) in accepted
    ensures HasPred(PredMap(lookup), p, t)
  {
    assert Agree(lookup, accepted, p, t);
    AcceptedCounts(accepted, p, t);
  }

  lemma {:induction false} AcceptedCounts(es: seq<(int, int)>, p: int, t: int)
    requires (p, t) in es
    ensures CountEdges(es, p, t) > 0
  {
    if es[|es| - 1] != (p, t) {
      AcceptedCounts(es[..|es| - 1], p, t);
    }
  }

  /** The successors of `node` that lie in the loop are in the component, by edges of the graph. */
  ghost predicate StaysInside(accepted: seq<(int, int)>, scc: set<int>, blocks: seq<Block>, node: int, edges: seq<Edge>)
    requires BlocksValid(blocks) && EdgesValid(blocks, edges)
  {
    forall k | 0 <= k < |edges| :: var t := blocks[edges[k].succ].resolved;
      blocks[t].inLoop ==> t in scc && (node, t) in accepted
  }

  /** Mass can be propagated from every block of the component. */
  ghost predicate NeverAborts(headers: seq<int>, accepted: seq<(int, int)>, scc: set<int>) {
    forall blocks: seq<Block>, node: int, edges: seq<Edge> | node in scc && BlocksValid(blocks) && EdgesValid(blocks, edges)
      && StaysInside(accepted, scc, blocks, node, edges) ::
      && !SomeAborts(headers, blocks, node, edges)
      && forall k | 0 <= k < |edges| :: Handled(headers, blocks, node, blocks[edges[k].succ].resolved)
  }

  lemma OutsideIsHandled(headers: seq<int>, blocks: seq<Block>, pred: int, t: int)
    requires 0 <= t < |blocks| && !blocks[t].inLoop
    ensures Handled(headers, blocks, pred, t) && !Aborts(headers, blocks, pred, t)
  {
  }

  lemma SplitNeverAborts(lookup: map<int, IrrNode>, accepted: seq<(int, int)>, scc: set<int>, headers: seq<int>, others: seq<int>)
    requires Mirrored(lookup, accepted) && scc <= lookup.Keys
    requires Split(PredMap(lookup), scc, headers, others) && |headers| > 1
    ensures NeverAborts(headers, accepted, scc)
  {
    var preds := PredMap(lookup);
    hide Mirrored, Split, Handled, Aborts;
    forall blocks: seq<Block>, node: int, edges: seq<Edge> | node in scc && BlocksValid(blocks) && EdgesValid(blocks, edges)
      && StaysInside(accepted, scc, blocks, node, edges)
      ensures !SomeAborts(headers, blocks, node, edges)
      ensures forall k | 0 <= k < |edges| :: Handled(headers, blocks, node, blocks[edges[k].succ].resolved)
    {
      forall k | 0 <= k < |edges|
        ensures var t := blocks[edges[k].succ].resolved;
          Handled(headers, blocks, node, t) && !Aborts(headers, blocks, node, t)
      {
        var t := blocks[edges[k].succ].resolved;
        if blocks[t].inLoop {
          AcceptedIsPred(lookup, accepted, node, t);
          IrreducibleLoopsAreHandled(preds, scc, headers, others, blocks, node, t);
        } else {
          OutsideIsHandled(headers, blocks, node, t);
        }
      }
    }
  }

  /** Make a loop of a component with several entries: its headers and others split it, and mass
      propagation inside it never aborts. */
  method CreateIrreducibleLoop(graph: IrreducibleGraph, scc: set<int>) returns (loop: LoopData)
    requires graph.Valid() && scc <= graph.lookup.Keys
    requires exists n, m :: n != m && IsEntry(PredMap(graph.lookup), scc, n) && IsEntry(PredMap(graph.lookup), scc, m)
    ensures fresh(loop) && loop.Valid() && loop.exits == []
    ensures Split(PredMap(graph.lookup), scc, loop.nodes[..loop.numHeaders], loop.nodes[loop.numHeaders..])
    ensures loop.IsIrreducible() && NeverAborts(HeadersOf(loop), graph.accepted, scc)
  {
    var headers, others := FindIrreducibleHeaders(graph.lookup, scc);
    TwoHeaders(PredMap(graph.lookup), scc, headers, others);
    SplitNeverAborts(graph.lookup, graph.accepted, scc, headers, others);
    loop := new LoopData.Irreducible(headers, others);
    assert loop.nodes[..loop.numHeaders] == headers && loop.nodes[loop.numHeaders..] == others;
  }

  lemma TwoHeaders(preds: map<int, seq<int>>, scc: set<int>, headers: seq<int>, others: seq<int>)
    requires Split(preds, scc, headers, others)
    requires exists n, m :: n != m && IsEntry(preds, scc, n) && IsEntry(preds, scc, m)
    ensures |headers| > 1
  {
    var n, m :| n != m && IsEntry(preds, scc, n) && IsEntry(preds, scc, m);
    assert n in headers && m in headers;
  }
}
