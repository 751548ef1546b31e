/** The depth-first search for back edges, with its explicit stack. */
module CfgBackedges {
  import opened Cfgs

  /** A stack entry: a block and how many of its successors have been taken. */
  datatype Frame = Frame(blk: Block, next: int)

  ghost predicate OnStack(stack: seq<Frame>, b: Block) {
    exists k :: 0 <= k < |stack| && stack[k].blk == b
  }

  /** Each entry was reached through the last successor its parent took. */
  ghost predicate Link(g: Graph, stack: seq<Frame>, k: int)
    requires 0 < k < |stack|
  {
    var f := stack[k - 1];
    0 <= f.blk < |g| && 0 < f.next <= |g[f.blk]| && g[f.blk][f.next - 1] == stack[k].blk
  }

  /** The stack is a path of distinct blocks. */
  ghost predicate StackIsPath(g: Graph, stack: seq<Frame>) {
    && (forall k | 0 <= k < |stack| :: 0 <= stack[k].blk < |g| && 0 <= stack[k].next <= |g[stack[k].blk]|)
    && (forall k {:trigger Link(g, stack, k)} | 0 < k < |stack| :: Link(g, stack, k))
    && (forall i, j | 0 <= i < j < |stack| :: stack[i].blk != stack[j].blk)
  }

  /** The successor of u at position j is accounted for: reported, finished before u is, or
      the block the search has just gone down to. */
  ghost predicate Settled(g: Graph, fin: map<Block, int>, result: seq<(Block, Block)>, u: Block, v: Block, bound: int) {
    (u, v) in result || (v in fin && fin[v] < bound)
  }

  ghost predicate FinishedOk(g: Graph, fin: map<Block, int>, result: seq<(Block, Block)>, u: Block) {
    0 <= u < |g| && u in fin && forall v | v in g[u] :: Settled(g, fin, result, u, v, fin[u])
  }

  ghost predicate FrameOk(g: Graph, stack: seq<Frame>, fin: map<Block, int>, result: seq<(Block, Block)>, clock: int, k: int)
    requires StackIsPath(g, stack) && 0 <= k < |stack|
  {
    forall j | 0 <= j < stack[k].next ::
      Settled(g, fin, result, stack[k].blk, g[stack[k].blk][j], clock) || (k + 1 < |stack| && g[stack[k].blk][j] == stack[k + 1].blk)
  }

  /** A reported edge is an edge of the graph that closes a cycle of visited blocks. */
  ghost predicate ReportOk(g: Graph, visited: set<Block>, e: (Block, Block)) {
    Edge(g, e.0, e.1) && Reaches(g, e.1, e.0) && e.1 in visited
  }

  lemma {:induction false} StackReaches(g: Graph, stack: seq<Frame>, i: nat, j: nat)
    requires StackIsPath(g, stack) && i <= j < |stack|
    ensures Reaches(g, stack[i].blk, stack[j].blk)
  {
    if i == j {
      ReachesSelf(g, stack[i].blk);
    } else {
      StackReaches(g, stack, i, j - 1);
      assert Link(g, stack, j);
      assert Edge(g, stack[j - 1].blk, stack[j].blk);
      ReachesEdge(g, stack[i].blk, stack[j - 1].blk, stack[j].blk);
    }
  }

  ghost function Below(n: nat): set<Block> { if n == 0 then {} else Below(n - 1) + {n - 1} }

  lemma BelowMembers(n: nat)
    ensures forall b :: b in Below(n) <==> 0 <= b < n
  {
  }

  lemma OneMoreBlock(stack: seq<Frame>, f: Frame)
    ensures forall b :: OnStack(stack + [f], b) <==> OnStack(stack, b) || b == f.blk
  {
    var stack' := stack + [f];
    assert stack'[|stack|].blk == f.blk;
    forall b ensures OnStack(stack', b) <==> OnStack(stack, b) || b == f.blk {
      if OnStack(stack, b) {
        var i :| 0 <= i < |stack| && stack[i].blk == b;
        assert stack'[i].blk == b;
      }
      if OnStack(stack', b) && b != f.blk {
        var i :| 0 <= i < |stack'| && stack'[i].blk == b;
        assert stack[i].blk == b;
      }
    }
  }

  /** The whole state of the search between two rounds. */
  ghost predicate SearchOk(g: Graph, entry: Block, visited: set<Block>, stack: seq<Frame>, inStack: set<Block>,
                           fin: map<Block, int>, clock: int, result: seq<(Block, Block)>)
  {
    && StackIsPath(g, stack) && entry in visited
    && (forall b :: b in inStack <==> OnStack(stack, b))
    && (forall b :: b in visited <==> b in inStack || b in fin)
    && (forall b {:trigger FinishedOk(g, fin, result, b)} | b in fin :: FinishedOk(g, fin, result, b))
    && (forall b | b in fin :: b !in inStack && fin[b] < clock)
    && (forall k {:trigger FrameOk(g, stack, fin, result, clock, k)} | 0 <= k < |stack| :: FrameOk(g, stack, fin, result, clock, k))
    && (forall e | e in result :: ReportOk(g, visited, e))
  }

  /** Every cycle that can be reached from the entry contains a reported edge. */
  ghost predicate CutsCycles(g: Graph, entry: Block, result: seq<(Block, Block)>) {
    forall p | IsPath(g, p) && |p| >= 2 && p[0] == p[|p| - 1] && Reaches(g, entry, p[0]) ::
      exists i :: 0 <= i < |p| - 1 && (p[i], p[i + 1]) in result
  }

  /** Along a path without reported edges finishing times fall. */
  lemma {:induction false} FinishFalls(g: Graph, fin: map<Block, int>, result: seq<(Block, Block)>, p: seq<Block>, k: nat)
    requires forall b {:trigger FinishedOk(g, fin, result, b)} | b in fin :: FinishedOk(g, fin, result, b)
    requires IsPath(g, p) && p[0] in fin && k < |p|
    requires forall i | 0 <= i < |p| - 1 :: (p[i], p[i + 1]) !in result
    ensures p[k] in fin && (k > 0 ==> fin[p[k]] < fin[p[0]])
  {
    if k > 0 {
      FinishFalls(g, fin, result, p, k - 1);
      assert FinishedOk(g, fin, result, p[k - 1]) && Edge(g, p[k - 1], p[k]);
      assert Settled(g, fin, result, p[k - 1], p[k], fin[p[k - 1]]);
      assert (p[k - 1], p[(k - 1) + 1]) !in result;
    }
  }

  lemma SearchDone(g: Graph, entry: Block, visited: set<Block>, inStack: set<Block>, fin: map<Block, int>, clock: int, result: seq<(Block, Block)>)
    requires SearchOk(g, entry, visited, [], inStack, fin, clock, result)
    ensures CutsCycles(g, entry, result)
  {
    forall u, v | u in fin.Keys && Edge(g, u, v) ensures v in fin.Keys {
      assert FinishedOk(g, fin, result, u);
      assert Settled(g, fin, result, u, v, fin[u]);
      if (u, v) in result {
        assert ReportOk(g, visited, (u, v));
      }
    }
    forall p | IsPath(g, p) && |p| >= 2 && p[0] == p[|p| - 1] && Reaches(g, entry, p[0])
      ensures exists i :: 0 <= i < |p| - 1 && (p[i], p[i + 1]) in result
    {
      ReachesStays(g, fin.Keys, entry, p[0]);
      if forall i | 0 <= i < |p| - 1 :: (p[i], p[i + 1]) !in result {
        FinishFalls(g, fin, result, p, |p| - 1);
      }
    }
  }

  lemma NoEdgeNoCycle(g: Graph, entry: Block)
    requires 0 <= entry < |g| && g[entry] == []
    ensures CutsCycles(g, entry, [])
  {
    forall p | IsPath(g, p) && |p| >= 2 ensures 0 <= p[0] < |g| && g[p[0]] != [] {
      assert Edge(g, p[0], p[0 + 1]);
    }
    forall v | Reaches(g, entry, v) ensures v == entry {
      ReachesStays(g, {entry}, entry, v);
    }
  }

  lemma SearchStarts(g: Graph, entry: Block)
    requires 0 <= entry < |g|
    ensures SearchOk(g, entry, {entry}, [Frame(entry, 0)], {entry}, map[], 0, [])
  {
    assert [Frame(entry, 0)][0].blk == entry;
  }

  lemma SearchTop(g: Graph, entry: Block, visited: set<Block>, stack: seq<Frame>, inStack: set<Block>,
                  fin: map<Block, int>, clock: int, r: seq<(Block, Block)>)
    requires SearchOk(g, entry, visited, stack, inStack, fin, clock, r) && stack != []
    ensures var Frame(u, j) := stack[|stack| - 1]; 0 <= u < |g| && 0 <= j <= |g[u]|
    ensures stack == stack[..|stack| - 1] + [stack[|stack| - 1]]
  {
  }

  /** The top block's next successor has been seen before, and is either finished or, being on
      the stack, reported. */
  lemma TakeSuccessor(g: Graph, entry: Block, visited: set<Block>, base: seq<Frame>, u: Block, j: int, inStack: set<Block>,
                      fin: map<Block, int>, clock: int, r: seq<(Block, Block)>)
    requires SearchOk(g, entry, visited, base + [Frame(u, j)], inStack, fin, clock, r)
    requires 0 <= u < |g| && 0 <= j < |g[u]| && (g[u][j] in fin || (u, g[u][j]) in r)
    ensures SearchOk(g, entry, visited, base + [Frame(u, j + 1)], inStack, fin, clock, r)
  {
    var stack, stack', top := base + [Frame(u, j)], base + [Frame(u, j + 1)], |base|;
    OneMoreBlock(base, Frame(u, j));
    OneMoreBlock(base, Frame(u, j + 1));
    forall k | 0 < k < |stack'| ensures Link(g, stack', k) { assert Link(g, stack, k); }
    assert forall k | 0 <= k < |stack| :: stack'[k].blk == stack[k].blk;
    forall k | 0 <= k < |stack'| ensures FrameOk(g, stack', fin, r, clock, k) {
      assert FrameOk(g, stack, fin, r, clock, k);
    }
  }

  /** A successor on the stack closes a cycle, and is reported. */
  lemma Report(g: Graph, entry: Block, visited: set<Block>, base: seq<Frame>, u: Block, j: int, inStack: set<Block>,
               fin: map<Block, int>, clock: int, r: seq<(Block, Block)>)
    requires SearchOk(g, entry, visited, base + [Frame(u, j)], inStack, fin, clock, r)
    requires 0 <= u < |g| && 0 <= j < |g[u]| && g[u][j] in inStack
    ensures SearchOk(g, entry, visited, base + [Frame(u, j)], inStack, fin, clock, r + [(u, g[u][j])])
  {
    var stack, v, r' := base + [Frame(u, j)], g[u][j], r + [(u, g[u][j])];
    var k :| 0 <= k < |stack| && stack[k].blk == v;
    StackReaches(g, stack, k, |base|);
    forall b | b in fin ensures FinishedOk(g, fin, r', b) {
      assert FinishedOk(g, fin, r, b);
    }
    forall k | 0 <= k < |stack| ensures FrameOk(g, stack, fin, r', clock, k) {
      assert FrameOk(g, stack, fin, r, clock, k);
    }
  }

  /** The search goes down to a block not seen before. */
  lemma GoDown(g: Graph, entry: Block, visited: set<Block>, base: seq<Frame>, u: Block, j: int, inStack: set<Block>,
               fin: map<Block, int>, clock: int, r: seq<(Block, Block)>)
    requires ValidGraph(g) && SearchOk(g, entry, visited, base + [Frame(u, j)], inStack, fin, clock, r)
    requires 0 <= u < |g| && 0 <= j < |g[u]| && g[u][j] !in visited
    ensures var v := g[u][j];
      SearchOk(g, entry, visited + {v}, base + [Frame(u, j + 1)] + [Frame(v, 0)], inStack + {v}, fin, clock, r)
  {
    var stack, top, v := base + [Frame(u, j)], |base|, g[u][j];
    var stack1 := base + [Frame(u, j + 1)];
    var stack' := stack1 + [Frame(v, 0)];
    OneMoreBlock(base, Frame(u, j));
    OneMoreBlock(base, Frame(u, j + 1));
    OneMoreBlock(stack1, Frame(v, 0));
    assert !OnStack(stack, v);
    assert forall k | 0 <= k <= top :: stack[k].blk != v && stack'[k].blk == stack[k].blk;
    forall k | 0 < k < |stack'| ensures Link(g, stack', k) {
      if k <= top { assert Link(g, stack, k); }
    }
    forall k | 0 <= k < |stack'| ensures FrameOk(g, stack', fin, r, clock, k) {
      if k <= top {
        assert FrameOk(g, stack, fin, r, clock, k);
      }
    }
    forall e | e in r ensures ReportOk(g, visited + {v}, e) {
      assert ReportOk(g, visited, e);
    }
  }

  /** All successors of the top block are settled: it is finished, later than all of them. */
  lemma GoUp(g: Graph, entry: Block, visited: set<Block>, base: seq<Frame>, u: Block, inStack: set<Block>,
             fin: map<Block, int>, clock: int, r: seq<(Block, Block)>)
    requires 0 <= u < |g| && SearchOk(g, entry, visited, base + [Frame(u, |g[u]|)], inStack, fin, clock, r)
    ensures SearchOk(g, entry, visited, base, inStack - {u}, fin[u := clock], clock + 1, r)
  {
    var stack, top, fin' := base + [Frame(u, |g[u]|)], |base|, fin[u := clock];
    OneMoreBlock(base, Frame(u, |g[u]|));
    assert u in inStack && u !in fin;
    assert forall k | 0 <= k < top :: stack[k].blk != stack[top].blk && base[k] == stack[k];
    assert !OnStack(base, u);
    forall k | 0 < k < |base| ensures Link(g, base, k) { assert Link(g, stack, k); }
    if top > 0 { assert Link(g, stack, top); }
    assert FrameOk(g, stack, fin, r, clock, top);
    forall b | b in fin' ensures FinishedOk(g, fin', r, b) {
      if b == u {
        forall v | v in g[u] ensures Settled(g, fin', r, u, v, clock) {
          var i :| 0 <= i < |g[u]| && g[u][i] == v;
          assert Settled(g, fin, r, u, g[u][i], clock);
        }
      } else {
        assert FinishedOk(g, fin, r, b);
        forall v | v in g[b] ensures Settled(g, fin', r, b, v, fin'[b]) {
          assert Settled(g, fin, r, b, v, fin[b]);
        }
      }
    }
    var clock' := clock + 1;
    forall k | 0 <= k < |base| ensures FrameOk(g, base, fin', r, clock', k) {
      assert FrameOk(g, stack, fin, r, clock, k);
    }
  }

  lemma SeenIsOnStackOrFinished(g: Graph, entry: Block, visited: set<Block>, stack: seq<Frame>, inStack: set<Block>,
                                fin: map<Block, int>, clock: int, r: seq<(Block, Block)>, b: Block)
    requires SearchOk(g, entry, visited, stack, inStack, fin, clock, r) && b in visited
    ensures b in inStack || b in fin
  {
  }

  lemma NoneOnStack(g: Graph, entry: Block, visited: set<Block>, inStack: set<Block>,
                    fin: map<Block, int>, clock: int, r: seq<(Block, Block)>)
    requires SearchOk(g, entry, visited, [], inStack, fin, clock, r)
    ensures CutsCycles(g, entry, r) && forall e | e in r :: Edge(g, e.0, e.1) && Reaches(g, e.1, e.0)
  {
    assert forall b :: !OnStack([], b);
    SearchDone(g, entry, visited, inStack, fin, clock, r);
  }

  // ----- Each reported edge is needed -----

  function Blocks(stack: seq<Frame>): (r: seq<Block>)
    ensures |r| == |stack| && forall k | 0 <= k < |stack| :: r[k] == stack[k].blk
  {
    seq(|stack|, k requires 0 <= k < |stack| => stack[k].blk)
  }

  /** A path made of edges the search went down. */
  ghost predicate TreePath(g: Graph, tree: set<(Block, Block)>, p: seq<Block>, u: Block, v: Block) {
    PathFrom(g, p, u, v) && forall i | 0 <= i < |p| - 1 :: (p[i], p[i + 1]) in tree
  }

  /** The edges the search went down are never reported: on the stack they lead from each block to
      the next. Every reported edge is closed by a path of them. */
  ghost predicate TreeOk(g: Graph, blks: seq<Block>, visited: set<Block>, r: seq<(Block, Block)>, tree: set<(Block, Block)>) {
    && (forall k | 0 < k < |blks| :: (blks[k - 1], blks[k]) in tree)
    && (forall e | e in tree :: Edge(g, e.0, e.1) && e.1 in visited && e !in r)
    && (forall e, k | e in tree && 0 <= k < |blks| && blks[k] == e.1 :: k > 0 && blks[k - 1] == e.0)
    && (forall e | e in r :: exists p :: TreePath(g, tree, p, e.1, e.0))
  }

  lemma TreeStarts(g: Graph, entry: Block)
    ensures TreeOk(g, [entry], {entry}, [], {})
  {
  }

  lemma TreeParent(g: Graph, blks: seq<Block>, visited: set<Block>, r: seq<(Block, Block)>, tree: set<(Block, Block)>, u: Block, k: int)
    requires TreeOk(g, blks, visited, r, tree) && 0 <= k < |blks| && (u, blks[k]) in tree
    ensures k > 0 && blks[k - 1] == u
  {
    var e := (u, blks[k]);
    assert e in tree && blks[k] == e.1;
  }

  lemma TreeReport(g: Graph, blks: seq<Block>, visited: set<Block>, r: seq<(Block, Block)>, tree: set<(Block, Block)>, k: int)
    requires TreeOk(g, blks, visited, r, tree) && 0 <= k < |blks|
    requires forall i, j | 0 <= i < j < |blks| :: blks[i] != blks[j]
    ensures TreeOk(g, blks, visited, r + [(blks[|blks| - 1], blks[k])], tree)
  {
    var p, u, v := blks[k..], blks[|blks| - 1], blks[k];
    forall i | 0 <= i < |p| - 1 ensures (p[i], p[i + 1]) in tree && Edge(g, p[i], p[i + 1]) {
      assert (blks[k + i + 1 - 1], blks[k + i + 1]) in tree;
    }
    assert TreePath(g, tree, p, v, u);
    if (u, v) in tree {
      TreeParent(g, blks, visited, r, tree, u, k);
    }
  }

  lemma TreeDown(g: Graph, blks: seq<Block>, visited: set<Block>, r: seq<(Block, Block)>, tree: set<(Block, Block)>, v: Block)
    requires TreeOk(g, blks, visited, r, tree) && blks != [] && v !in visited && Edge(g, blks[|blks| - 1], v)
    requires (forall b | b in blks :: b in visited) && forall e | e in r :: e.1 in visited
    ensures TreeOk(g, blks + [v], visited + {v}, r, tree + {(blks[|blks| - 1], v)})
  {
    var tree' := tree + {(blks[|blks| - 1], v)};
    forall e | e in r ensures exists p :: TreePath(g, tree', p, e.1, e.0) {
      var p :| TreePath(g, tree, p, e.1, e.0);
      assert TreePath(g, tree', p, e.1, e.0);
    }
  }

  lemma TreeUp(g: Graph, blks: seq<Block>, visited: set<Block>, r: seq<(Block, Block)>, tree: set<(Block, Block)>, u: Block)
    requires TreeOk(g, blks + [u], visited, r, tree)
    ensures TreeOk(g, blks, visited, r, tree)
  {
    var all := blks + [u];
    forall k | 0 < k < |blks| ensures (blks[k - 1], blks[k]) in tree {
      assert (all[k - 1], all[k]) in tree;
    }
    forall e, k | e in tree && 0 <= k < |blks| && blks[k] == e.1 ensures k > 0 && blks[k - 1] == e.0 {
      assert all[k] == e.1 && (k > 0 ==> all[k - 1] == blks[k - 1]);
    }
  }

  /** What the stack's blocks are, in terms of the search state. */
  lemma StackBlocks(g: Graph, entry: Block, visited: set<Block>, base: seq<Frame>, u: Block, j: int, inStack: set<Block>,
                    fin: map<Block, int>, clock: int, r: seq<(Block, Block)>)
    requires SearchOk(g, entry, visited, base + [Frame(u, j)], inStack, fin, clock, r)
    ensures var blks := Blocks(base) + [u];
      && (forall i, k | 0 <= i < k < |blks| :: blks[i] != blks[k]) && (forall b | b in blks :: b in visited)
      && (forall b | b in inStack :: b in blks) && (forall e | e in r :: e.1 in visited)
  {
    var stack, blks := base + [Frame(u, j)], Blocks(base) + [u];
    assert forall k | 0 <= k < |stack| :: stack[k].blk == blks[k];
    forall b | b in inStack ensures b in blks {
      var k :| 0 <= k < |stack| && stack[k].blk == b;
      assert blks[k] == b;
    }
    forall b | b in blks ensures b in visited {
      var k :| 0 <= k < |blks| && blks[k] == b;
      assert stack[k].blk == b;
      assert OnStack(stack, b);
    }
    forall e | e in r ensures e.1 in visited {
      assert ReportOk(g, visited, e);
    }
  }

  /** Some cycle has e as its only reported edge. */
  ghost predicate ClosesAlone(g: Graph, r: seq<(Block, Block)>, e: (Block, Block)) {
    exists p :: PathFrom(g, p, e.1, e.0) && forall i | 0 <= i < |p| - 1 :: (p[i], p[i + 1]) !in r
  }

  lemma TreeDone(g: Graph, visited: set<Block>, r: seq<(Block, Block)>, tree: set<(Block, Block)>)
    requires TreeOk(g, [], visited, r, tree)
    ensures forall e | e in r :: ClosesAlone(g, r, e)
  {
    forall e | e in r ensures ClosesAlone(g, r, e) {
      var p :| TreePath(g, tree, p, e.1, e.0);
      assert forall i | 0 <= i < |p| - 1 :: (p[i], p[i + 1]) in tree;
    }
  }

  /** The edges a depth-first search from the entry finds to close cycles: they cut every cycle
      that can be reached, and none of them can be left out. */
  method FindFunctionBackedges(g: Graph, entry: Block) returns (result: seq<(Block, Block)>)
    requires ValidGraph(g) && 0 <= entry < |g|
    ensures forall e | e in result :: Edge(g, e.0, e.1) && Reaches(g, e.1, e.0)
    ensures CutsCycles(g, entry, result)
    ensures forall e | e in result :: ClosesAlone(g, result, e)
  {
    hide SearchOk, CutsCycles, TreeOk, ClosesAlone;
    result := [];
    if g[entry] == [] {
      NoEdgeNoCycle(g, entry);
      return;
    }
    var visited, stack, inStack := {entry}, [Frame(entry, 0)], {entry};
    ghost var fin: map<Block, int>, clock := map[], 0;
    ghost var all := Below(|g|);
    BelowMembers(|g|);
    SearchStarts(g, entry);
    ghost var tree: set<(Block, Block)> := {};
    TreeStarts(g, entry);
    assert Blocks(stack) == [entry];
    while stack != []
      invariant SearchOk(g, entry, visited, stack, inStack, fin, clock, result)
      invariant TreeOk(g, Blocks(stack), visited, result, tree)
      invariant visited <= all
      decreases all - visited, |stack|
    {
      SearchTop(g, entry, visited, stack, inStack, fin, clock, result);
      var base, parent, next := stack[..|stack| - 1], stack[|stack| - 1].blk, stack[|stack| - 1].next;
      assert Blocks(stack) == Blocks(base) + [parent];
      var foundNew, bb := false, parent;
      while next < |g[parent]| && !foundNew
        invariant 0 <= next <= |g[parent]| && TreeOk(g, Blocks(base) + [parent], visited, result, tree)
        invariant !foundNew ==> SearchOk(g, entry, visited, base + [Frame(parent, next)], inStack, fin, clock, result)
        invariant foundNew ==> next > 0 && bb == g[parent][next - 1] && bb !in visited
        invariant foundNew ==> SearchOk(g, entry, visited, base + [Frame(parent, next - 1)], inStack, fin, clock, result)
        decreases |g[parent]| - next, !foundNew
      {
        bb := g[parent][next];
        if bb !in visited {
          foundNew := true;
        } else {
          SeenIsOnStackOrFinished(g, entry, visited, base + [Frame(parent, next)], inStack, fin, clock, result, bb);
          if bb in inStack {
            Report(g, entry, visited, base, parent, next, inStack, fin, clock, result);
            StackBlocks(g, entry, visited, base, parent, next, inStack, fin, clock, result);
            ghost var k :| 0 <= k < |Blocks(base) + [parent]| && (Blocks(base) + [parent])[k] == bb;
            TreeReport(g, Blocks(base) + [parent], visited, result, tree, k);
            result := result + [(parent, bb)];
          }
          TakeSuccessor(g, entry, visited, base, parent, next, inStack, fin, clock, result);
        }
        next := next + 1;
      }
      if foundNew {
        GoDown(g, entry, visited, base, parent, next - 1, inStack, fin, clock, result);
        StackBlocks(g, entry, visited, base, parent, next - 1, inStack, fin, clock, result);
        TreeDown(g, Blocks(base) + [parent], visited, result, tree, bb);
        tree := tree + {(parent, bb)};
        assert Blocks(base + [Frame(parent, next)] + [Frame(bb, 0)]) == Blocks(base) + [parent] + [bb];
        stack := base + [Frame(parent, next)] + [Frame(bb, 0)];
        assert bb in all - visited;
        visited, inStack := visited + {bb}, inStack + {bb};
      } else {
        GoUp(g, entry, visited, base, parent, inStack, fin, clock, result);
        TreeUp(g, Blocks(base), visited, result, tree, parent);
        inStack, stack := inStack - {parent}, base;
        fin, clock := fin[parent := clock], clock + 1;
      }
    }
    NoneOnStack(g, entry, visited, inStack, fin, clock, result);
    assert Blocks(stack) == [];
    TreeDone(g, visited, result, tree);
  }
}
