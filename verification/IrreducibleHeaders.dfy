/** The explicit graph of a region, and the choice of headers that breaks every cycle of a component. */
module IrreducibleHeaders {
  import opened Wrappers
  import opened BlockFrequencies

  // ----- The explicit graph -----

  /** Predecessors are kept at the front of the edge deque, successors behind them. */
  datatype IrrNode = IrrNode(numIn: nat, edges: seq<int>) {
    ghost predicate Valid() { numIn <= |edges| }

    function Preds(): seq<int>
      requires Valid()
    {
      edges[..numIn]
    }

    function Succs(): seq<int>
      requires Valid()
    {
      edges[numIn..]
    }
  }

  function CountEdges(es: seq<(int, int)>, u: int, v: int): nat {
    if es == [] then 0 else CountEdges(es[..|es| - 1], u, v) + if es[|es| - 1] == (u, v) then 1 else 0
  }

  class IrreducibleGraph {
    var lookup: map<int, IrrNode>
    // Every edge accepted so far.
    ghost var accepted: seq<(int, int)>

    ghost predicate Valid()
      reads this
    {
      Mirrored(lookup, accepted)
    }

    constructor (nodes: set<int>)
      ensures Valid() && lookup.Keys == nodes && accepted == []
    {
      lookup := map n | n in nodes :: IrrNode(0, []);
      accepted := [];
    }

    /** Edges to headers of the enclosing loop and to nodes outside the graph are left out. */
    method AddEdge(irr: int, succ: int, outer: LoopData?)
      requires Valid() && irr in lookup && (outer != null ==> outer.Valid())
      modifies this
      ensures Valid() && lookup.Keys == old(lookup.Keys)
      ensures accepted == old(accepted)
                        + if succ in lookup && !(outer != null && outer.IsHeader(succ)) then [(irr, succ)] else []
    {
      if outer != null {
        var isHeader := outer.TestHeader(succ);
        if isHeader {
          return;
        }
      }
      if succ !in lookup {
        return;
      }
      MirrorOneMore(lookup, accepted, irr, succ);
      lookup := lookup[irr := PushSucc(lookup[irr], succ)];
      lookup := lookup[succ := PushPred(lookup[succ], irr)];
      accepted := accepted + [(irr, succ)];
    }
  }

  function PushSucc(n: IrrNode, succ: int): IrrNode { n.(edges := n.edges + [succ]) }

  function PushPred(n: IrrNode, pred: int): IrrNode { n.(numIn := n.numIn + 1, edges := [pred] + n.edges) }

  function AddLink(lookup: map<int, IrrNode>, irr: int, succ: int): map<int, IrrNode>
    requires irr in lookup && succ in lookup
  {
    var pushed := lookup[irr := PushSucc(lookup[irr], succ)];
    pushed[succ := PushPred(pushed[succ], irr)]
  }

  /** Both ends list the edge n -> m as often as it was added. */
  ghost predicate Agree(lookup: map<int, IrrNode>, accepted: seq<(int, int)>, n: int, m: int)
    requires n in lookup && m in lookup && lookup[n].Valid() && lookup[m].Valid()
  {
    multiset(lookup[n].Succs())[m] == CountEdges(accepted, n, m) == multiset(lookup[m].Preds())[n]
  }

  ghost predicate Mirrored(lookup: map<int, IrrNode>, accepted: seq<(int, int)>) {
    && (forall n | n in lookup :: lookup[n].Valid())
    && (forall n, m | n in lookup && m in lookup :: Agree(lookup, accepted, n, m))
    && (forall n | n in lookup :: forall m | m in lookup[n].edges :: m in lookup)
  }

  lemma Pushed(lookup: map<int, IrrNode>, irr: int, succ: int, n: int)
    requires irr in lookup && succ in lookup && n in lookup && lookup[n].Valid()
    ensures var now := AddLink(lookup, irr, succ)[n];
      && now.Valid()
      && now.Succs() == lookup[n].Succs() + (if n == irr then [succ] else [])
      && now.Preds() == (if n == succ then [irr] else []) + lookup[n].Preds()
      && (forall m | m in now.edges :: m in lookup[n].edges || m == irr || m == succ)
  {
    hide PushSucc, PushPred;
    var node := lookup[n];
    var pushed := if n == irr then PushSucc(node, succ) else node;
    SuccPushed(node, succ);
    PredPushed(pushed, irr);
    assert AddLink(lookup, irr, succ)[n] == if n == succ then PushPred(pushed, irr) else pushed;
    assert pushed.Succs() == node.Succs() + (if n == irr then [succ] else []);
  }

  lemma SuccPushed(node: IrrNode, succ: int)
    requires node.Valid()
    ensures var now := PushSucc(node, succ);
      && now.Valid() && now.Succs() == node.Succs() + [succ] && now.Preds() == node.Preds()
      && (forall m | m in now.edges :: m in node.edges || m == succ)
  {
  }

  lemma PredPushed(node: IrrNode, pred: int)
    requires node.Valid()
    ensures var now := PushPred(node, pred);
      && now.Valid() && now.Succs() == node.Succs() && now.Preds() == [pred] + node.Preds()
      && (forall m | m in now.edges :: m in node.edges || m == pred)
  {
  }

  lemma MirrorOneMore(lookup: map<int, IrrNode>, accepted: seq<(int, int)>, irr: int, succ: int)
    requires irr in lookup && succ in lookup && Mirrored(lookup, accepted)
    ensures Mirrored(AddLink(lookup, irr, succ), accepted + [(irr, succ)])
  {
    var now, accepted' := AddLink(lookup, irr, succ), accepted + [(irr, succ)];
    assert accepted'[..|accepted'| - 1] == accepted;
    assert now.Keys == lookup.Keys;
    forall n | n in now ensures now[n].Valid() && forall m | m in now[n].edges :: m in now {
      Pushed(lookup, irr, succ, n);
    }
    forall n, m | n in now && m in now ensures Agree(now, accepted', n, m) {
      assert Agree(lookup, accepted, n, m);
      Pushed(lookup, irr, succ, n);
      Pushed(lookup, irr, succ, m);
    }
  }

  // ----- Headers -----

  ghost predicate HasPred(preds: map<int, seq<int>>, p: int, n: int) {
    n in preds && p in preds[n]
  }

  /** A block of the component with a predecessor outside it. */
  ghost predicate IsEntry(preds: map<int, seq<int>>, scc: set<int>, n: int) {
    n in scc && exists p :: HasPred(preds, p, n) && p !in scc
  }

  /** A block with a predecessor that neither comes before it nor is an entry. */
  ghost predicate IsExtra(preds: map<int, seq<int>>, scc: set<int>, n: int) {
    n in scc && exists p :: HasPred(preds, p, n) && !(p < n) && !IsEntry(preds, scc, p)
  }

  ghost predicate Increasing(s: seq<int>) {
    forall i, j | 0 <= i < j < |s| :: s[i] < s[j]
  }

  /** Headers and others split the component, and the headers are its entries and extras. */
  ghost predicate Split(preds: map<int, seq<int>>, scc: set<int>, headers: seq<int>, others: seq<int>) {
    && Increasing(headers) && Increasing(others)
    && (forall n :: n in headers <==> IsEntry(preds, scc, n) || IsExtra(preds, scc, n))
    && (forall n :: n in others <==> n in scc && n !in headers)
  }

  /** Every way into a block that is no header comes from an entry or from an earlier block. */
  lemma OthersComeAfter(preds: map<int, seq<int>>, scc: set<int>, headers: seq<int>, others: seq<int>, p: int, n: int)
    requires Split(preds, scc, headers, others) && n in others && HasPred(preds, p, n)
    ensures p in scc && (IsEntry(preds, scc, p) || p < n)
  {
  }

  ghost predicate IsCycle(preds: map<int, seq<int>>, c: seq<int>) {
    && c != []
    && (forall i | 0 < i < |c| :: HasPred(preds, c[i - 1], c[i]))
    && HasPred(preds, c[|c| - 1], c[0])
  }

  /** Every cycle inside the component passes through a header. */
  lemma CyclesPassHeaders(preds: map<int, seq<int>>, scc: set<int>, headers: seq<int>, others: seq<int>, c: seq<int>)
    requires Split(preds, scc, headers, others) && IsCycle(preds, c)
    requires forall i | 0 <= i < |c| :: c[i] in scc
    ensures exists i :: 0 <= i < |c| && c[i] in headers
  {
    if forall i | 0 <= i < |c| :: c[i] !in headers {
      forall i | 0 < i < |c| ensures c[i - 1] < c[i] {
        OthersComeAfter(preds, scc, headers, others, c[i - 1], c[i]);
      }
      OthersComeAfter(preds, scc, headers, others, c[|c| - 1], c[0]);
      Climb(c, |c| - 1);
    }
  }

  lemma {:induction false} Climb(c: seq<int>, k: int)
    requires 0 <= k < |c| && forall i | 0 < i < |c| :: c[i - 1] < c[i]
    ensures c[0] <= c[k]
  {
    if k > 0 {
      Climb(c, k - 1);
    }
  }

  // ----- Choosing them -----

  ghost predicate NoDuplicates(s: seq<int>) {
    forall i, j | 0 <= i < j < |s| :: s[i] != s[j]
  }

  function Members(s: seq<int>): set<int> { set n | n in s }

  lemma {:induction false} MembersCount(s: seq<int>)
    requires NoDuplicates(s)
    ensures |Members(s)| == |s|
  {
    if s != [] {
      MembersCount(s[1..]);
      assert Members(s) == Members(s[1..]) + {s[0]};
    }
  }

  function Insert(n: int, s: seq<int>): seq<int> {
    if s == [] || n < s[0] then [n] + s else [s[0]] + Insert(n, s[1..])
  }

  lemma {:induction false} InsertMembers(n: int, s: seq<int>, m: int)
    ensures m in Insert(n, s) <==> m in s || m == n
  {
    if s != [] && n >= s[0] {
      InsertMembers(n, s[1..], m);
      assert s == [s[0]] + s[1..];
    }
  }

  lemma {:induction false} InsertIncreasing(n: int, s: seq<int>)
    requires Increasing(s) && n !in s
    ensures Increasing(Insert(n, s))
  {
    if s != [] && n >= s[0] {
      InsertIncreasing(n, s[1..]);
      var rest := Insert(n, s[1..]);
      forall k | 0 <= k < |rest| ensures s[0] < rest[k] {
        InsertMembers(n, s[1..], rest[k]);
        assert s[0] != n;
      }
    }
  }

  method SortNodes(s: seq<int>) returns (r: seq<int>)
    requires NoDuplicates(s)
    ensures Increasing(r) && forall n :: n in r <==> n in s
  {
    r := [];
    for i := 0 to |s|
      invariant Increasing(r) && forall n :: n in r <==> n in s[..i]
    {
      assert s[i] !in s[..i];
      InsertIncreasing(s[i], r);
      forall m ensures m in Insert(s[i], r) <==> m in r || m == s[i] {
        InsertMembers(s[i], r, m);
      }
      r := Insert(s[i], r);
      assert s[..i + 1] == s[..i] + [s[i]];
    }
    assert s[..|s|] == s;
  }

  function PredMap(lookup: map<int, IrrNode>): map<int, seq<int>>
    requires forall n | n in lookup :: lookup[n].Valid()
  {
    map n | n in lookup :: lookup[n].Preds()
  }

  /** Does control enter here from outside the component? */
  method EntersFromOutside(preds: seq<int>, inScc: map<int, bool>) returns (r: bool)
    ensures r <==> exists p :: p in preds && p !in inScc
  {
    for k := 0 to |preds|
      invariant forall i | 0 <= i < k :: preds[i] in inScc
    {
      var p := preds[k];
      if p !in inScc {
        assert p in preds && p !in inScc;
        return true;
      }
    }
    r := false;
  }

  /** Is there an edge from a block that is not before this one, other than from an entry? */
  method HasBackedge(n: int, preds: seq<int>, inScc: map<int, bool>) returns (r: bool)
    ensures r <==> exists p :: p in preds && !(p < n) && !(p in inScc && inScc[p])
  {
    for k := 0 to |preds|
      invariant forall i | 0 <= i < k :: preds[i] < n || (preds[i] in inScc && inScc[preds[i]])
    {
      var p := preds[k];
      if p < n {
        continue;
      }
      if p in inScc && inScc[p] {
        continue;
      }
      return true;
    }
    r := false;
  }

  /** The entries among `done` have been found and marked. */
  ghost predicate EntriesFound(preds: map<int, seq<int>>, scc: set<int>, done: set<int>, inScc: map<int, bool>, headers: seq<int>) {
    && inScc.Keys == scc && NoDuplicates(headers)
    && (forall n :: n in headers <==> n in done && IsEntry(preds, scc, n))
    && (forall n | n in scc :: inScc[n] <==> n in headers)
  }

  /** Seed the component's table and mark the entries, in whatever order the table iterates. */
  method MarkEntries(lookup: map<int, IrrNode>, scc: set<int>) returns (inScc: map<int, bool>, headers: seq<int>)
    requires (forall n | n in lookup :: lookup[n].Valid()) && scc <= lookup.Keys
    ensures EntriesFound(PredMap(lookup), scc, scc, inScc, headers)
  {
    ghost var preds := PredMap(lookup);
    inScc := map n | n in scc :: false;
    headers := [];
    var todo := scc;
    while todo != {}
      invariant todo <= scc && EntriesFound(preds, scc, scc - todo, inScc, headers)
    {
      ghost var some := SomeElement(todo);
      var n :| n in todo;
      var entry := EntersFromOutside(lookup[n].Preds(), inScc);
      assert entry <==> IsEntry(preds, scc, n) by {
        forall p ensures HasPred(preds, p, n) <==> p in lookup[n].Preds() {
        }
      }
      ghost var done := scc - todo;
      if entry {
        inScc, headers := inScc[n := true], headers + [n];
      }
      todo := todo - {n};
      assert scc - todo == done + {n};
    }
    assert scc - {} == scc;
  }

  /** Which blocks among `done` have been sorted into headers and others. */
  ghost predicate Sorted(preds: map<int, seq<int>>, scc: set<int>, done: set<int>, headers: seq<int>, others: seq<int>) {
    && NoDuplicates(headers) && NoDuplicates(others)
    && (forall n :: n in headers <==> IsEntry(preds, scc, n) || (n in done && IsExtra(preds, scc, n)))
    && (forall n :: n in others <==> n in done && !IsEntry(preds, scc, n) && !IsExtra(preds, scc, n))
  }

  /** Entries are headers; so is every other block with a backedge that is not from an entry. */
  method FindIrreducibleHeaders(lookup: map<int, IrrNode>, scc: set<int>) returns (headers: seq<int>, others: seq<int>)
    requires (forall n | n in lookup :: lookup[n].Valid()) && scc <= lookup.Keys
    requires exists n :: IsEntry(PredMap(lookup), scc, n)
    ensures Split(PredMap(lookup), scc, headers, others)
    ensures forall n :: n in headers <==> n in scc && (FromOutside(lookup, scc, n) || FromLaterInside(lookup, scc, n))
    ensures forall n :: n in headers || n in others <==> n in scc
  {
    hide FromOutside, FromLaterInside, Split, IsEntry;
    ghost var preds := PredMap(lookup);
    var inScc;
    inScc, headers := MarkEntries(lookup, scc);
    others := [];
    if |headers| == |inScc| {
      AllEntries(preds, scc, inScc, headers);
      headers := SortNodes(headers);
      EntriesSplit(preds, scc, headers);
      SplitIs(lookup, scc, headers, others);
      return;
    }
    var todo := inScc.Keys;
    EntriesSorted(preds, scc, inScc, headers);
    assert scc - todo == {};
    while todo != {}
      invariant todo <= scc && headers != [] && Sorted(preds, scc, scc - todo, headers, others)
    {
      ghost var some := SomeElement(todo);
      var n :| n in todo;
      ghost var done := scc - todo;
      todo := todo - {n};
      assert scc - todo == done + {n};
      if inScc[n] {
        continue;
      }
      var extra := HasBackedge(n, lookup[n].Preds(), inScc);
      assert extra <==> IsExtra(preds, scc, n) by {
        forall p ensures HasPred(preds, p, n) <==> p in lookup[n].Preds() {
        }
      }
      assert headers[|headers| - 1] in headers;
      if extra {
        headers := headers + [n];
      }
      if headers[|headers| - 1] == n {
        continue;
      }
      others := others + [n];
    }
    ghost var hs, os := headers, others;
    assert scc - {} == scc;
    headers := SortNodes(headers);
    others := SortNodes(others);
    SortedSplit(preds, scc, hs, os, headers, others);
    SplitIs(lookup, scc, headers, others);
  }

  lemma EntriesSorted(preds: map<int, seq<int>>, scc: set<int>, inScc: map<int, bool>, headers: seq<int>)
    requires EntriesFound(preds, scc, scc, inScc, headers) && exists n :: IsEntry(preds, scc, n)
    ensures headers != [] && Sorted(preds, scc, {}, headers, [])
  {
    var n :| IsEntry(preds, scc, n);
    assert n in headers;
  }

  lemma SortedSplit(preds: map<int, seq<int>>, scc: set<int>, hs: seq<int>, os: seq<int>, headers: seq<int>, others: seq<int>)
    requires Sorted(preds, scc, scc, hs, os) && Increasing(headers) && Increasing(others)
    requires (forall n :: n in headers <==> n in hs) && (forall n :: n in others <==> n in os)
    ensures Split(preds, scc, headers, others) && forall n :: n in headers || n in others <==> n in scc
  {
  }

  lemma EntriesSplit(preds: map<int, seq<int>>, scc: set<int>, headers: seq<int>)
    requires Increasing(headers) && (forall n :: n in headers <==> n in scc) && (forall n | n in scc :: IsEntry(preds, scc, n))
    ensures Split(preds, scc, headers, [])
  {
  }

  /** An edge into n, on the list of its predecessors. */
  ghost predicate EdgeInto(lookup: map<int, IrrNode>, p: int, n: int) {
    n in lookup && exists k :: 0 <= k < lookup[n].numIn && k < |lookup[n].edges| && lookup[n].edges[k] == p
  }

  ghost predicate FromOutside(lookup: map<int, IrrNode>, scc: set<int>, n: int) {
    exists p :: EdgeInto(lookup, p, n) && p !in scc
  }

  /** An edge into n from a block of the component that does not come before n, and that itself
      can only be entered from inside. */
  ghost predicate FromLaterInside(lookup: map<int, IrrNode>, scc: set<int>, n: int) {
    exists p :: EdgeInto(lookup, p, n) && n <= p && p in scc && !FromOutside(lookup, scc, p)
  }

  lemma SplitIs(lookup: map<int, IrrNode>, scc: set<int>, headers: seq<int>, others: seq<int>)
    requires (forall n | n in lookup :: lookup[n].Valid()) && scc <= lookup.Keys
    requires Split(PredMap(lookup), scc, headers, others)
    ensures forall n :: n in headers <==> n in scc && (FromOutside(lookup, scc, n) || FromLaterInside(lookup, scc, n))
  {
    var preds := PredMap(lookup);
    forall p, n ensures EdgeInto(lookup, p, n) <==> HasPred(preds, p, n) {
      if n in lookup {
        assert preds[n] == lookup[n].edges[..lookup[n].numIn];
      }
    }
    hide EdgeInto, HasPred, PredMap;
    forall n ensures n in scc ==> (FromOutside(lookup, scc, n) <==> IsEntry(preds, scc, n)) {
    }
    forall n | n in scc
      ensures IsEntry(preds, scc, n) || IsExtra(preds, scc, n) <==> FromOutside(lookup, scc, n) || FromLaterInside(lookup, scc, n)
    {
      if IsExtra(preds, scc, n) {
        var p :| HasPred(preds, p, n) && !(p < n) && !IsEntry(preds, scc, p);
        assert EdgeInto(lookup, p, n);
      }
      if FromLaterInside(lookup, scc, n) {
        var p :| EdgeInto(lookup, p, n) && n <= p && p in scc && !FromOutside(lookup, scc, p);
        assert HasPred(preds, p, n);
      }
    }
  }

  lemma AllEntries(preds: map<int, seq<int>>, scc: set<int>, inScc: map<int, bool>, headers: seq<int>)
    requires EntriesFound(preds, scc, scc, inScc, headers) && |headers| == |inScc|
    ensures forall n :: n in headers <==> n in scc
  {
    MembersCount(headers);
    var rest := scc - Members(headers);
    assert scc == Members(headers) + rest;
    assert |scc| == |Members(headers)| + |rest|;
  }
}
