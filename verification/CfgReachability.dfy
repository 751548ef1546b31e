/** The bounded reachability query, which skips from a loop straight to its exits. */
module CfgReachability {
  import opened Wrappers
  import opened Cfgs

  /** A natural loop: its blocks and its parent, by index into the table of loops. */
  datatype Loop = Loop(blocks: seq<Block>, parent: Option<int>)

  /** loopFor gives the innermost loop of a block. */
  datatype LoopInfo = LoopInfo(loops: seq<Loop>, loopFor: map<Block, int>)

  /** The outermost loop around loop l: parents come before children in the table. */
  function Outer(li: LoopInfo, l: int): (r: int)
    ensures 0 <= l ==> 0 <= r <= l
    decreases l
  {
    if 0 <= l < |li.loops| && li.loops[l].parent.Some? && 0 <= li.loops[l].parent.value < l
    then Outer(li, li.loops[l].parent.value) else l
  }

  function OuterOf(li: LoopInfo, b: Block): Option<int> {
    if b in li.loopFor then Some(Outer(li, li.loopFor[b])) else None
  }

  /** What loop information guarantees: outermost loops do not share blocks, a block belongs
      to its outermost loop, and the blocks of a loop reach each other. */
  ghost predicate ValidLoops(g: Graph, li: LoopInfo) {
    && (forall l | 0 <= l < |li.loops| && li.loops[l].parent.Some? :: 0 <= li.loops[l].parent.value < l)
    && (forall b | b in li.loopFor :: 0 <= li.loopFor[b] < |li.loops| && b in li.loops[Outer(li, li.loopFor[b])].blocks)
    && (forall l | 0 <= l < |li.loops| && li.loops[l].parent.None? :: OutermostOk(g, li, l))
  }

  ghost predicate OutermostOk(g: Graph, li: LoopInfo, l: int)
    requires 0 <= l < |li.loops|
  {
    var blocks := li.loops[l].blocks;
    && (forall b | b in blocks :: 0 <= b < |g|)
    && (forall b | b in blocks :: OuterOf(li, b) == Some(l))
    && (forall a, b | a in blocks && b in blocks :: Reaches(g, a, b))
  }

  lemma {:induction false} OuterIsOutermost(g: Graph, li: LoopInfo, l: int)
    requires ValidLoops(g, li) && 0 <= l < |li.loops|
    ensures 0 <= Outer(li, l) < |li.loops| && li.loops[Outer(li, l)].parent.None?
    decreases l
  {
    if li.loops[l].parent.Some? {
      OuterIsOutermost(g, li, li.loops[l].parent.value);
    }
  }

  method GetOutermostLoop(ghost g: Graph, li: LoopInfo, b: Block) returns (r: Option<int>)
    requires ValidLoops(g, li)
    ensures r == OuterOf(li, b)
    ensures r.Some? ==> 0 <= r.value < |li.loops| && li.loops[r.value].parent.None? && b in li.loops[r.value].blocks
  {
    if b !in li.loopFor {
      return None;
    }
    var l := li.loopFor[b];
    OuterIsOutermost(g, li, l);
    while li.loops[l].parent.Some?
      invariant 0 <= l < |li.loops| && Outer(li, l) == Outer(li, li.loopFor[b])
      decreases l
    {
      l := li.loops[l].parent.value;
    }
    return Some(l);
  }

  lemma LoopBlocks(g: Graph, li: LoopInfo, l: int, a: Block, stop: Block)
    requires ValidLoops(g, li) && 0 <= l < |li.loops| && li.loops[l].parent.None? && a in li.loops[l].blocks
    ensures forall b | b in li.loops[l].blocks :: 0 <= b < |g| && Reaches(g, a, b)
    ensures OuterOf(li, stop) != Some(l) ==> stop !in li.loops[l].blocks
  {
    assert OutermostOk(g, li, l);
  }

  /** The successors outside the loop of the blocks of a loop. */
  method GetExitBlocks(g: Graph, blocks: seq<Block>) returns (exits: seq<Block>)
    requires forall b | b in blocks :: 0 <= b < |g|
    ensures forall v :: v in exits <==> v !in blocks && exists u :: u in blocks && Edge(g, u, v)
  {
    exits := [];
    for i := 0 to |blocks|
      invariant forall v :: v in exits <==> v !in blocks && exists u :: u in blocks[..i] && Edge(g, u, v)
    {
      var u := blocks[i];
      assert u in blocks;
      assert blocks[..i + 1] == blocks[..i] + [u];
      ghost var e0 := exits;
      for j := 0 to |g[u]|
        invariant forall v :: v in exits <==> v in e0 || (v !in blocks && v in g[u][..j])
      {
        assert g[u][..j + 1] == g[u][..j] + [g[u][j]];
        if g[u][j] !in blocks {
          exits := exits + [g[u][j]];
        }
      }
      assert g[u][..|g[u]|] == g[u];
      forall v ensures v in exits <==> v !in blocks && exists w :: w in blocks[..i + 1] && Edge(g, w, v) {
        assert v in g[u] <==> Edge(g, u, v);
        assert forall w :: w in blocks[..i + 1] <==> w in blocks[..i] || w == u;
      }
    }
    assert blocks[..|blocks|] == blocks;
  }

  /** A dominator tree, as its two queries: whether a block can be reached from the entry, and
      whether the first block dominates the second (which every block does when the second
      cannot be reached). */
  datatype DominatorTree = DominatorTree(reachable: Block -> bool, dominates: (Block, Block) -> bool)

  ghost predicate ValidDominators(g: Graph, dt: DominatorTree) {
    forall a, b | dt.reachable(b) && dt.dominates(a, b) :: Reaches(g, a, b)
  }

  ghost predicate FromStart(g: Graph, start: seq<Block>, b: Block) {
    exists a :: a in start && Reaches(g, a, b)
  }

  lemma FromStartTrans(g: Graph, start: seq<Block>, b: Block, c: Block)
    requires FromStart(g, start, b) && Reaches(g, b, c)
    ensures FromStart(g, start, c)
  {
    var a :| a in start && Reaches(g, a, b);
    ReachesTrans(g, a, b, c);
  }

  /** The state of the walk: everything met is reachable from the start; the blocks dealt
      with, each with its whole outermost loop, are covered; and the edges out of the covered
      part lead back into it or to the worklist. */
  ghost predicate WalkOk(g: Graph, start: seq<Block>, stop: Block, visited: set<Block>, worklist: seq<Block>, covered: set<Block>) {
    && (forall b | b in worklist :: 0 <= b < |g| && FromStart(g, start, b))
    && (forall b | b in visited :: FromStart(g, start, b) && b in covered)
    && stop !in covered
    && (forall u, v | u in covered && Edge(g, u, v) :: v in covered || v in worklist)
    && (forall b | b in start :: b in covered || b in worklist)
  }

  lemma StepSeen(g: Graph, start: seq<Block>, stop: Block, visited: set<Block>, rest: seq<Block>, covered: set<Block>, bb: Block)
    requires WalkOk(g, start, stop, visited, rest + [bb], covered) && bb in visited
    ensures WalkOk(g, start, stop, visited, rest, covered)
  {
    assert forall b | b in rest :: b in rest + [bb];
    assert forall b | b in rest + [bb] :: b in rest || b == bb;
  }

  /** A block outside all loops is replaced by its successors. */
  lemma StepBlock(g: Graph, start: seq<Block>, stop: Block, visited: set<Block>, rest: seq<Block>, covered: set<Block>, bb: Block)
    requires ValidGraph(g) && WalkOk(g, start, stop, visited, rest + [bb], covered) && bb != stop
    ensures 0 <= bb < |g| && WalkOk(g, start, stop, visited + {bb}, rest + g[bb], covered + {bb})
  {
    assert bb in rest + [bb];
    assert forall b | b in rest :: b in rest + [bb];
    assert forall b | b in rest + [bb] :: b in rest || b == bb;
    forall v | v in g[bb] ensures 0 <= v < |g| && FromStart(g, start, v) {
      ReachesSelf(g, bb);
      ReachesEdge(g, bb, bb, v);
      FromStartTrans(g, start, bb, v);
    }
  }

  /** A block in a loop is replaced by the exits of its outermost loop. */
  lemma StepLoop(g: Graph, start: seq<Block>, stop: Block, visited: set<Block>, rest: seq<Block>, covered: set<Block>, bb: Block,
                 blocks: seq<Block>, exits: seq<Block>)
    requires ValidGraph(g) && WalkOk(g, start, stop, visited, rest + [bb], covered)
    requires bb in blocks && stop !in blocks && forall b | b in blocks :: 0 <= b < |g| && Reaches(g, bb, b)
    requires forall v :: v in exits <==> v !in blocks && exists u :: u in blocks && Edge(g, u, v)
    ensures WalkOk(g, start, stop, visited + {bb}, rest + exits, covered + (set b | b in blocks))
  {
    assert bb in rest + [bb];
    assert forall b | b in rest :: b in rest + [bb];
    assert forall b | b in rest + [bb] :: b in rest || b == bb;
    forall v | v in exits ensures 0 <= v < |g| && FromStart(g, start, v) {
      var u :| u in blocks && Edge(g, u, v);
      ReachesEdge(g, bb, u, v);
      FromStartTrans(g, start, bb, v);
    }
  }

  lemma WalkEnds(g: Graph, start: seq<Block>, stop: Block, visited: set<Block>, covered: set<Block>)
    requires WalkOk(g, start, stop, visited, [], covered)
    ensures !FromStart(g, start, stop)
  {
    forall a | a in start ensures !Reaches(g, a, stop) {
      if Reaches(g, a, stop) {
        ReachesStays(g, covered, a, stop);
      }
    }
  }

  lemma WalkStarts(g: Graph, start: seq<Block>, stop: Block)
    requires forall b | b in start :: 0 <= b < |g|
    ensures WalkOk(g, start, stop, {}, start, {})
  {
    forall b | b in start ensures FromStart(g, start, b) { ReachesSelf(g, b); }
  }

  /** The search was cut off: 32 blocks other than stop can be reached. */
  ghost predicate CutOff(g: Graph, start: seq<Block>, stop: Block, seen: set<Block>) {
    |seen| == 32 && stop !in seen && forall b | b in seen :: FromStart(g, start, b)
  }

  lemma WalkFacts(g: Graph, start: seq<Block>, stop: Block, visited: set<Block>, rest: seq<Block>, covered: set<Block>, bb: Block)
    requires WalkOk(g, start, stop, visited, rest + [bb], covered)
    ensures FromStart(g, start, bb) && 0 <= bb < |g|
    ensures bb != stop && bb !in visited && |visited| == LIMIT - 1 ==> CutOff(g, start, stop, visited + {bb})
  {
    assert bb in rest + [bb];
  }

  /** The query gives up after this many blocks. */
  const LIMIT: int := 32

  /** Whether stop may be reachable from a block of the worklist: a negative answer is certain,
      and a positive one is right unless the search was cut off. */
  method IsPotentiallyReachableFromMany(g: Graph, start: seq<Block>, stop: Block, domTree: Option<DominatorTree>, li: Option<LoopInfo>)
    returns (r: bool)
    requires ValidGraph(g) && start != [] && forall b | b in start :: 0 <= b < |g|
    requires li.Some? ==> ValidLoops(g, li.value)
    requires domTree.Some? ==> ValidDominators(g, domTree.value)
    ensures !r ==> !FromStart(g, start, stop)
    ensures r ==> FromStart(g, start, stop) || exists seen :: CutOff(g, start, stop, seen)
  {
    hide WalkOk, CutOff;
    var dt := domTree;
    if dt.Some? && !dt.value.reachable(stop) {
      dt := None;
    }
    var limit := LIMIT;
    var visited: set<Block> := {};
    var worklist := start;
    ghost var covered: set<Block> := {};
    WalkStarts(g, start, stop);
    while worklist != []
      invariant WalkOk(g, start, stop, visited, worklist, covered)
      invariant |visited| == LIMIT - limit && limit > 0
      decreases limit, |worklist|
    {
      var rest, bb := worklist[..|worklist| - 1], worklist[|worklist| - 1];
      assert worklist == rest + [bb];
      worklist := rest;
      if bb in visited {
        StepSeen(g, start, stop, visited, rest, covered, bb);
        continue;
      }
      WalkFacts(g, start, stop, visited, rest, covered, bb);
      if bb == stop {
        return true;
      }
      if dt.Some? && dt.value.dominates(bb, stop) {
        FromStartTrans(g, start, bb, stop);
        return true;
      }
      var outer: Option<int>, stopOuter: Option<int> := None, None;
      if li.Some? {
        outer := GetOutermostLoop(g, li.value, bb);
        stopOuter := GetOutermostLoop(g, li.value, stop);
        if outer.Some? && outer == stopOuter {
          FromStartTrans(g, start, bb, stop);
          return true;
        }
      }
      limit := limit - 1;
      if limit == 0 {
        return true;
      }
      if outer.Some? {
        var blocks := li.value.loops[outer.value].blocks;
        LoopBlocks(g, li.value, outer.value, bb, stop);
        var exits := GetExitBlocks(g, blocks);
        StepLoop(g, start, stop, visited, rest, covered, bb, blocks, exits);
        worklist, covered := worklist + exits, covered + (set b | b in blocks);
      } else {
        StepBlock(g, start, stop, visited, rest, covered, bb);
        worklist, covered := worklist + g[bb], covered + {bb};
      }
      visited := visited + {bb};
    }
    WalkEnds(g, start, stop, visited, covered);
    return false;
  }

  /** Whether block b may be reachable from block a. */
  method IsPotentiallyReachable(g: Graph, a: Block, b: Block, domTree: Option<DominatorTree>, li: Option<LoopInfo>) returns (r: bool)
    requires ValidGraph(g) && 0 <= a < |g|
    requires li.Some? ==> ValidLoops(g, li.value)
    requires domTree.Some? ==> ValidDominators(g, domTree.value)
    ensures !r ==> !Reaches(g, a, b)
    ensures r ==> Reaches(g, a, b) || exists seen :: CutOff(g, [a], b, seen)
  {
    r := IsPotentiallyReachableFromMany(g, [a], b, domTree, li);
    assert a in [a];
  }

  // ----- Instructions -----

  /** An instruction: the i-th of its block. */
  datatype Point = Point(block: Block, i: int)

  /** Control can get from instruction p to instruction q: straight on in one block, or over
      at least one edge. */
  ghost predicate CanReach(g: Graph, p: Point, q: Point) {
    (p.block == q.block && p.i <= q.i) || exists v :: Edge(g, p.block, v) && Reaches(g, v, q.block)
  }

  /** The blocks the search for q starts from: those after the block of p, if it is that of q. */
  function StartBlocks(g: Graph, p: Point, q: Point): seq<Block>
    requires 0 <= p.block < |g|
  {
    if p.block == q.block then g[p.block] else [p.block]
  }

  /** The answer may be yes without a path. */
  ghost predicate Guessed(g: Graph, entry: Block, p: Point, q: Point, li: Option<LoopInfo>)
    requires 0 <= p.block < |g|
  {
    || (exists seen :: CutOff(g, StartBlocks(g, p, q), q.block, seen))
    || (p.block == entry && q.block != entry)
    || (p.block == q.block && li.Some? && p.block in li.value.loopFor)
  }

  /** Whether instruction q may be reachable from instruction p: no means no, and yes means that
      there is a path, or the search was cut off, or p is in the entry block, or both are in the
      same block of a loop.  size gives the number of instructions of each block; the entry block
      has no predecessors. */
  method IsPotentiallyReachableInstr(g: Graph, size: seq<nat>, entry: Block, p: Point, q: Point,
                                     domTree: Option<DominatorTree>, li: Option<LoopInfo>) returns (r: bool)
    requires ValidGraph(g) && |size| == |g| && 0 <= entry < |g| && forall u :: !Edge(g, u, entry)
    requires 0 <= p.block < |g| && 0 <= p.i < size[p.block]
    requires 0 <= q.block < |g| && 0 <= q.i < size[q.block]
    requires li.Some? ==> ValidLoops(g, li.value)
    requires domTree.Some? ==> ValidDominators(g, domTree.value)
    ensures !r ==> !CanReach(g, p, q)
    ensures r ==> CanReach(g, p, q) || Guessed(g, entry, p, q, li)
  {
    hide CutOff;
    var worklist: seq<Block> := [];
    if p.block == q.block {
      var bb := p.block;
      if li.Some? && bb in li.value.loopFor {
        return true;
      }
      // Scan from p for q or the end of the block.
      var i := p.i;
      while i < size[bb]
        invariant p.i <= i && !(p.i <= q.i < i)
      {
        if i == q.i {
          return true;
        }
        i := i + 1;
      }
      if bb == entry {
        NothingReachesEntry(g, entry);
        return false;
      }
      worklist := worklist + g[bb];
      if worklist == [] {
        return false;
      }
    } else {
      worklist := worklist + [p.block];
      StepToOther(g, p, q);
    }
    if p.block == entry {
      return true;
    }
    if q.block == entry {
      NothingReachesEntry(g, entry);
      return false;
    }
    r := IsPotentiallyReachableFromMany(g, worklist, q.block, domTree, li);
    assert worklist == StartBlocks(g, p, q);
    if FromStart(g, worklist, q.block) {
      StartCanReach(g, p, q);
    }
  }

  lemma StartCanReach(g: Graph, p: Point, q: Point)
    requires ValidGraph(g) && 0 <= p.block < |g| && FromStart(g, StartBlocks(g, p, q), q.block)
    ensures CanReach(g, p, q)
  {
    var a :| a in StartBlocks(g, p, q) && Reaches(g, a, q.block);
    if p.block != q.block {
      var path :| PathFrom(g, path, p.block, q.block);
      assert Edge(g, path[0], path[1]);
      forall i | 0 <= i < |path[1..]| - 1 ensures Edge(g, path[1..][i], path[1..][i + 1]) {
        assert Edge(g, path[i + 1], path[i + 2]);
      }
      assert PathFrom(g, path[1..], path[1], q.block);
    } else {
      assert Edge(g, p.block, a);
    }
  }

  lemma NothingReachesEntry(g: Graph, entry: Block)
    requires forall u :: !Edge(g, u, entry)
    ensures forall v | v != entry :: !Reaches(g, v, entry)
    ensures forall u, v | Edge(g, u, v) :: !Reaches(g, v, entry)
  {
    forall v | Reaches(g, v, entry) ensures v == entry {
      ReachesByEdge(g, v, entry);
    }
  }

  lemma StepToOther(g: Graph, p: Point, q: Point)
    requires p.block != q.block
    ensures CanReach(g, p, q) ==> Reaches(g, p.block, q.block)
  {
    if CanReach(g, p, q) {
      var v :| Edge(g, p.block, v) && Reaches(g, v, q.block);
      ReachesSelf(g, p.block);
      ReachesEdge(g, p.block, p.block, v);
      ReachesTrans(g, p.block, v, q.block);
    }
  }
}
