/** Control-flow graphs as successor lists, and paths in them. */
module Cfgs {

  type Block = int

  /** Block b branches to the blocks listed in g[b]. */
  type Graph = seq<seq<Block>>

  ghost predicate ValidGraph(g: Graph) {
    forall b, k | 0 <= b < |g| && 0 <= k < |g[b]| :: 0 <= g[b][k] < |g|
  }

  predicate Edge(g: Graph, u: Block, v: Block) {
    0 <= u < |g| && v in g[u]
  }

  /** A nonempty sequence of blocks, each branching to the next. */
  ghost predicate IsPath(g: Graph, p: seq<Block>) {
    p != [] && forall i | 0 <= i < |p| - 1 :: Edge(g, p[i], p[i + 1])
  }

  ghost predicate PathFrom(g: Graph, p: seq<Block>, u: Block, v: Block) {
    IsPath(g, p) && p[0] == u && p[|p| - 1] == v
  }

  /** Some path, possibly empty, leads from u to v. */
  ghost predicate Reaches(g: Graph, u: Block, v: Block) {
    exists p :: PathFrom(g, p, u, v)
  }

  lemma ReachesSelf(g: Graph, u: Block)
    ensures Reaches(g, u, u)
  {
    assert PathFrom(g, [u], u, u);
  }

  lemma ReachesTrans(g: Graph, u: Block, v: Block, w: Block)
    requires Reaches(g, u, v) && Reaches(g, v, w)
    ensures Reaches(g, u, w)
  {
    var p :| PathFrom(g, p, u, v);
    var q :| PathFrom(g, q, v, w);
    var r := p + q[1..];
    forall i | 0 <= i < |r| - 1 ensures Edge(g, r[i], r[i + 1]) {
      if i < |p| - 1 {
        assert Edge(g, p[i], p[i + 1]);
      } else {
        assert Edge(g, q[i - |p| + 1], q[i - |p| + 2]);
      }
    }
    assert PathFrom(g, r, u, w);
  }

  lemma ReachesEdge(g: Graph, u: Block, v: Block, w: Block)
    requires Reaches(g, u, v) && Edge(g, v, w)
    ensures Reaches(g, u, w)
  {
    assert PathFrom(g, [v, w], v, w);
    ReachesTrans(g, u, v, w);
  }

  /** A path that goes anywhere ends with an edge. */
  lemma ReachesByEdge(g: Graph, u: Block, v: Block)
    requires Reaches(g, u, v)
    ensures u == v || exists w :: Edge(g, w, v)
  {
    var p :| PathFrom(g, p, u, v);
    if |p| > 1 {
      var i := |p| - 2;
      assert Edge(g, p[i], p[i + 1]);
    }
  }

  ghost predicate Closed(g: Graph, s: set<Block>) {
    forall u, v | u in s && Edge(g, u, v) :: v in s
  }

  /** A path cannot leave a closed set. */
  lemma {:induction false} PathStays(g: Graph, s: set<Block>, p: seq<Block>, k: nat)
    requires Closed(g, s) && IsPath(g, p) && p[0] in s && k < |p|
    ensures p[k] in s
  {
    if k > 0 {
      PathStays(g, s, p, k - 1);
      assert Edge(g, p[k - 1], p[k]);
    }
  }

  lemma ReachesStays(g: Graph, s: set<Block>, u: Block, v: Block)
    requires Closed(g, s) && u in s && Reaches(g, u, v)
    ensures v in s
  {
    var p :| PathFrom(g, p, u, v);
    PathStays(g, s, p, |p| - 1);
  }
}
