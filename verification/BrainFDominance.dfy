/** Every use in a compiled function is dominated by its definition, on every path through the graph. */
module BrainFDominance {
  import opened Wrappers
  import opened BrainFSource
  import opened BrainFIr
  import opened BrainFLayout

  /** A point on a path, with the registers assigned on the way there. */
  datatype Point = Point(blk: nat, pc: nat, defined: set<nat>) | Returned | Undefined

  function Goto(g: Cfg, from: nat, to: nat, defined: set<nat>): Point {
    if to >= |g| then Undefined
    else match g[to].phi
      case None => Point(to, 0, defined)
      case Some(phi) =>
        match Incoming(phi.incoming, from)
        case Some(r) => if r in defined then Point(to, 0, defined + {phi.dst}) else Undefined
        case None => Undefined
  }

  /** One step along a path; at a conditional branch the path may go either way. */
  function Move(g: Cfg, s: Point, taken: bool): Point {
    if !s.Point? then s
    else if s.blk >= |g| then Undefined
    else
      var b := g[s.blk];
      if s.pc < |b.instrs| then
        var i := b.instrs[s.pc];
        if Uses(i) <= s.defined then Point(s.blk, s.pc + 1, s.defined + Defines(i)) else Undefined
      else match b.term
        case None => Undefined
        case Some(Br(t)) => Goto(g, s.blk, t, s.defined)
        case Some(CondBr(c, t, f)) => if c in s.defined then Goto(g, s.blk, if taken then t else f, s.defined) else Undefined
        case Some(Ret) => Returned
  }

  /** Where a path leads that takes the branches as listed. */
  function Walk(g: Cfg, s: Point, path: seq<bool>): Point
    decreases |path|
  {
    if path == [] then s else Walk(g, Move(g, s, path[0]), path[1..])
  }

  /** No path of n steps from s reads an undefined register. */
  predicate Safe(g: Cfg, n: nat, s: Point)
    decreases n
  {
    s != Undefined && (n > 0 ==> Safe(g, n - 1, Move(g, s, true)) && Safe(g, n - 1, Move(g, s, false)))
  }

  lemma {:induction false} SafeLess(g: Cfg, n: nat, k: nat, s: Point)
    requires Safe(g, n, s) && k <= n
    ensures Safe(g, k, s)
    decreases k
  {
    if k > 0 {
      SafeLess(g, n - 1, k - 1, Move(g, s, true));
      SafeLess(g, n - 1, k - 1, Move(g, s, false));
    }
  }

  lemma StepBack(g: Cfg, n: nat, s: Point)
    requires s.Point? && Safe(g, n, Move(g, s, true)) && Safe(g, n, Move(g, s, false))
    ensures Safe(g, n, s) && Safe(g, n + 1, s)
  {
    SafeLess(g, n + 1, n, s);
  }

  lemma {:induction false} ReturnedSafe(g: Cfg, n: nat)
    ensures Safe(g, n, Returned)
  {
    if n > 0 {
      ReturnedSafe(g, n - 1);
    }
  }

  /** One instruction whose operands are defined. */
  lemma InstrBack(g: Cfg, n: nat, blk: nat, pc: nat, d: set<nat>)
    requires blk < |g| && pc < |g[blk].instrs| && Uses(g[blk].instrs[pc]) <= d
    requires Safe(g, n, Point(blk, pc + 1, d + Defines(g[blk].instrs[pc])))
    ensures Safe(g, n, Point(blk, pc, d)) && Safe(g, n + 1, Point(blk, pc, d))
  {
    StepBack(g, n, Point(blk, pc, d));
  }

  // ----- Scopes -----

  /** The registers that emitted code relies on. */
  predicate Scope(d: set<nat>, head: nat, checked: bool) {
    ARR in d && head in d && (checked ==> ARRMAX in d)
  }

  ghost predicate SafeFrom(g: Cfg, n: nat, p: Pos, checked: bool) {
    forall d: set<nat> | Scope(d, p.head, checked) :: Safe(g, n, Point(p.blk, p.pc, d))
  }

  lemma SafeFromLess(g: Cfg, n: nat, k: nat, p: Pos, checked: bool)
    requires SafeFrom(g, n, p, checked) && k <= n
    ensures SafeFrom(g, k, p, checked)
  {
    forall d: set<nat> | Scope(d, p.head, checked) ensures Safe(g, k, Point(p.blk, p.pc, d)) {
      SafeLess(g, n, k, Point(p.blk, p.pc, d));
    }
  }

  /** The end block frees the tape, which is defined everywhere. */
  lemma EndSafe(g: Cfg, checked: bool, n: nat, d: set<nat>)
    requires FooterOk(g, checked) && ARR in d
    ensures Safe(g, n, Point(END_BLOCK, 0, d))
  {
    hide Safe;
    ReturnedSafe(g, n);
    StepBack(g, n, Point(END_BLOCK, 1, d));
    assert d + {} == d;
    InstrBack(g, n, END_BLOCK, 0, d);
  }

  lemma AbortSafe(g: Cfg, checked: bool, n: nat, d: set<nat>)
    requires FooterOk(g, checked) && checked && ARR in d
    ensures Safe(g, n, Point(ABERROR_BLOCK, 0, d))
  {
    hide Safe;
    EndSafe(g, checked, n, d);
    StepBack(g, n, Point(ABERROR_BLOCK, 1, d));
    assert d + {} == d;
    InstrBack(g, n, ABERROR_BLOCK, 0, d);
  }

  /** Three instructions in a row. */
  lemma ThreeBack(g: Cfg, n: nat, blk: nat, pc: nat, d: set<nat>)
    requires blk < |g| && pc + 3 <= |g[blk].instrs|
    requires var i0, i1, i2 := g[blk].instrs[pc], g[blk].instrs[pc + 1], g[blk].instrs[pc + 2];
      && Uses(i0) <= d && Uses(i1) <= d + Defines(i0) && Uses(i2) <= d + Defines(i0) + Defines(i1)
      && Safe(g, n, Point(blk, pc + 3, d + Defines(i0) + Defines(i1) + Defines(i2)))
    ensures Safe(g, n, Point(blk, pc, d))
  {
    hide Safe, Uses, Defines;
    var i0, i1, i2 := g[blk].instrs[pc], g[blk].instrs[pc + 1], g[blk].instrs[pc + 2];
    InstrBack(g, n, blk, pc + 2, d + Defines(i0) + Defines(i1));
    InstrBack(g, n, blk, pc + 1, d + Defines(i0));
    InstrBack(g, n, blk, pc, d);
  }

  lemma GuardBack(g: Cfg, checked: bool, n: nat, it: Item, d: set<nat>)
    requires StraightCode(g, checked, it) && it.stmt.Move? && checked && FooterOk(g, checked)
    requires SafeFrom(g, n, it.end, checked) && Scope(d, it.start.head, checked)
    ensures Safe(g, n, Point(it.start.blk, it.start.pc, d))
  {
    hide Safe;
    var p, q := it.start, it.end;
    var code, k := g[p.blk].instrs, p.pc;
    var d1 := d + {q.head};
    var d4 := d1 + {code[k + 1].dst} + {code[k + 2].dst} + {code[k + 3].dst};
    assert Scope(d4, q.head, checked);
    AbortSafe(g, checked, n, d4);
    StepBack(g, n, Point(p.blk, k + 4, d4));
    ThreeBack(g, n, p.blk, k + 1, d1);
    InstrBack(g, n, p.blk, k, d);
  }

  lemma StraightSafe(g: Cfg, checked: bool, n: nat, it: Item)
    requires StraightCode(g, checked, it) && FooterOk(g, checked) && SafeFrom(g, n, it.end, checked)
    ensures SafeFrom(g, n, it.start, checked)
  {
    hide Safe;
    var p, q := it.start, it.end;
    var code, k := g[p.blk].instrs, p.pc;
    forall d: set<nat> | Scope(d, p.head, checked) ensures Safe(g, n, Point(p.blk, k, d)) {
      if it.stmt.Move? {
        if checked {
          GuardBack(g, checked, n, it, d);
        } else {
          assert Scope(d + {q.head}, q.head, checked);
          InstrBack(g, n, p.blk, k, d);
        }
      } else {
        var d' := d + Defines(code[k]) + Defines(code[k + 1]) + Defines(code[k + 2]);
        assert Scope(d', q.head, checked);
        ThreeBack(g, n, p.blk, k, d);
      }
    }
  }

  // ----- Loops -----

  lemma IncomingOf(g: Cfg, it: Item)
    requires LoopFrame(g, it)
    ensures Incoming(g[it.test].phi.value.incoming, it.start.blk) == Some(it.start.head)
    ensures Incoming(g[it.test].phi.value.incoming, it.back.blk) == Some(it.back.head)
    ensures Incoming(g[it.end.blk].phi.value.incoming, it.test) == Some(g[it.test].phi.value.dst)
  {
    var inc := g[it.test].phi.value.incoming;
    assert inc[1..] == [(it.back.head, it.back.blk)];
  }

  /** One trip through the test block: on to the exit block or into the body. */
  lemma TestBack(g: Cfg, checked: bool, n: nat, it: Item, d: set<nat>)
    requires LoopFrame(g, it) && SafeFrom(g, n, it.end, checked) && SafeFrom(g, n, BodyStart(g, it), checked)
    requires Scope(d, g[it.test].phi.value.dst, checked)
    ensures Safe(g, n + 1, Point(it.test, 0, d))
  {
    hide Safe;
    IncomingOf(g, it);
    var t, head := it.test, g[it.test].phi.value.dst;
    var d2 := d + Defines(g[t].instrs[0]) + Defines(g[t].instrs[1]);
    assert Scope(d2, head, checked) && Scope(d2 + {it.end.head}, it.end.head, checked);
    StepBack(g, n, Point(t, 2, d2));
    InstrBack(g, n, t, 1, d + Defines(g[t].instrs[0]));
    InstrBack(g, n, t, 0, d);
  }

  lemma EnterBack(g: Cfg, checked: bool, n: nat, it: Item, p: Pos)
    requires LoopFrame(g, it) && (p == it.start || p == it.back)
    requires forall d: set<nat> | Scope(d, g[it.test].phi.value.dst, checked) :: Safe(g, n, Point(it.test, 0, d))
    ensures SafeFrom(g, n, p, checked)
  {
    hide Safe;
    IncomingOf(g, it);
    var head := g[it.test].phi.value.dst;
    forall d: set<nat> | Scope(d, p.head, checked) ensures Safe(g, n, Point(p.blk, p.pc, d)) {
      assert Scope(d + {head}, head, checked);
      StepBack(g, n, Point(p.blk, p.pc, d));
    }
  }

  /** Paths of any length around a loop, by induction on the length. */
  lemma {:induction false} TestSafe(g: Cfg, checked: bool, n: nat, it: Item)
    requires LoopCode(g, checked, it) && FooterOk(g, checked) && SafeFrom(g, n, it.end, checked)
    ensures forall d: set<nat> | Scope(d, g[it.test].phi.value.dst, checked) :: Safe(g, n, Point(it.test, 0, d))
    decreases n, it, 1
  {
    if n > 0 {
      SafeFromLess(g, n, n - 1, it.end, checked);
      TestSafe(g, checked, n - 1, it);
      EnterBack(g, checked, n - 1, it, it.back);
      CodeSafe(g, checked, n - 1, it.body, it.stmt.body, BodyStart(g, it), it.back);
      forall d: set<nat> | Scope(d, g[it.test].phi.value.dst, checked) ensures Safe(g, n, Point(it.test, 0, d)) {
        TestBack(g, checked, n - 1, it, d);
      }
    }
  }

  lemma {:induction false} CodeSafe(g: Cfg, checked: bool, n: nat, items: seq<Item>, ss: seq<Stmt>, p: Pos, q: Pos)
    requires Code(g, checked, items, ss, p, q) && FooterOk(g, checked) && SafeFrom(g, n, q, checked)
    ensures SafeFrom(g, n, p, checked)
    decreases n, items, 0
  {
    hide Safe, SafeFrom;
    if items != [] {
      CodeSafe(g, checked, n, items[1..], ss[1..], items[0].end, q);
      if StraightCode(g, checked, items[0]) {
        StraightSafe(g, checked, n, items[0]);
      } else {
        TestSafe(g, checked, n, items[0]);
        EnterBack(g, checked, n, items[0], p);
      }
    }
  }

  // ----- Whole functions -----

  lemma ExitSafe(g: Cfg, checked: bool, n: nat, q: Pos)
    requires FooterOk(g, checked) && EndsIn(g, q, Br(END_BLOCK))
    ensures SafeFrom(g, n, q, checked)
  {
    hide Safe;
    forall d: set<nat> | Scope(d, q.head, checked) ensures Safe(g, n, Point(q.blk, q.pc, d)) {
      EndSafe(g, checked, n, d);
      StepBack(g, n, Point(q.blk, q.pc, d));
    }
  }

  lemma EntrySafe(g: Cfg, checked: bool, mem: nat, n: nat)
    requires |g| > 0 && EntryCode(checked, mem) <= g[0].instrs
    requires SafeFrom(g, n, Pos(0, |EntryCode(checked, mem)|, FIRST_HEAD), checked)
    ensures Safe(g, n, Point(0, 0, {}))
  {
    hide Safe;
    var code := EntryCode(checked, mem);
    assert forall k | 0 <= k < |code| :: g[0].instrs[k] == code[k];
    if checked {
      var d: set<nat> := {} + {ARR} + {} + {ARRMAX};
      assert Scope(d + {FIRST_HEAD}, FIRST_HEAD, checked);
      InstrBack(g, n, 0, 3, d);
      ThreeBack(g, n, 0, 0, {});
    } else {
      var d: set<nat> := {} + {ARR} + {} + {FIRST_HEAD};
      assert Scope(d, FIRST_HEAD, checked);
      ThreeBack(g, n, 0, 0, {});
    }
  }

  lemma {:induction false} SafeWalk(g: Cfg, s: Point, path: seq<bool>)
    requires Safe(g, |path|, s)
    ensures Walk(g, s, path) != Undefined
    decreases |path|
  {
    if path != [] {
      SafeWalk(g, Move(g, s, path[0]), path[1..]);
    }
  }

  const ENTRY := Point(0, 0, {})

  /** On every path from the entry, each register read has been assigned before, and each phi
      has an entry for the edge. */
  lemma NothingUndefined(g: Cfg, checked: bool, mem: nat, ss: seq<Stmt>, path: seq<bool>)
    requires IsCompiled(g, checked, mem, ss)
    ensures Walk(g, ENTRY, path) != Undefined
  {
    hide DefinedOnce;
    var n, p := |path|, Pos(0, |EntryCode(checked, mem)|, FIRST_HEAD);
    var items, back :| CodeToEnd(g, checked, items, ss, p, back);
    ExitSafe(g, checked, n, back);
    CodeSafe(g, checked, n, items, ss, p, back);
    EntrySafe(g, checked, mem, n);
    SafeWalk(g, ENTRY, path);
  }

  // ----- The one definition -----

  function PhiReads(g: Cfg, from: nat, to: nat): set<nat> {
    if to >= |g| || g[to].phi.None? then {}
    else match Incoming(g[to].phi.value.incoming, from) case Some(r) => {r} case None => {}
  }

  /** What the next move reads: operands, a condition, and the register the phi of the next
      block takes. */
  function ReadsNext(g: Cfg, s: Point, taken: bool): set<nat> {
    if !s.Point? || s.blk >= |g| then {}
    else
      var b := g[s.blk];
      if s.pc < |b.instrs| then Uses(b.instrs[s.pc])
      else match b.term
        case Some(Br(t)) => PhiReads(g, s.blk, t)
        case Some(CondBr(c, t, f)) => {c} + PhiReads(g, s.blk, if taken then t else f)
        case _ => {}
  }

  /** The move from s executes instruction k - 1 of block b or, for k = 0, enters b. */
  predicate Executes(g: Cfg, s: Point, taken: bool, b: nat, k: nat) {
    && s.Point? && s.blk < |g|
    && if k > 0 then s.blk == b && s.pc == k - 1
       else s.pc >= |g[s.blk].instrs| && Move(g, s, taken).Point? && Move(g, s, taken).blk == b
  }

  ghost predicate Passes(g: Cfg, path: seq<bool>, b: nat, k: nat) {
    exists i :: 0 <= i < |path| && Executes(g, Walk(g, ENTRY, path[..i]), path[i], b, k)
  }

  ghost predicate OnlyDefinition(g: Cfg, b: nat, k: nat, r: nat) {
    DefinesAt(g, b, k, r) && forall c: nat, l: nat | DefinesAt(g, c, l, r) :: c == b && l == k
  }

  lemma {:induction false} WalkOn(g: Cfg, s: Point, path: seq<bool>, taken: bool)
    ensures Walk(g, s, path + [taken]) == Move(g, Walk(g, s, path), taken)
    decreases |path|
  {
    if path == [] {
      assert [taken][1..] == [];
    } else {
      assert (path + [taken])[1..] == path[1..] + [taken];
      WalkOn(g, Move(g, s, path[0]), path[1..], taken);
    }
  }

  lemma MoveDefines(g: Cfg, s: Point, taken: bool, r: nat)
    requires Move(g, s, taken).Point? && r in Move(g, s, taken).defined
    ensures s.Point?
    ensures r in s.defined || exists b: nat, k: nat :: DefinesAt(g, b, k, r) && Executes(g, s, taken, b, k)
  {
    if r !in s.defined {
      var s' := Move(g, s, taken);
      if s.pc < |g[s.blk].instrs| {
        assert DefinesAt(g, s.blk, s.pc + 1, r) && Executes(g, s, taken, s.blk, s.pc + 1);
      } else {
        assert DefinesAt(g, s'.blk, 0, r) && Executes(g, s, taken, s'.blk, 0);
      }
    }
  }

  lemma PassesMore(g: Cfg, path: seq<bool>, taken: bool, b: nat, k: nat)
    requires Passes(g, path, b, k)
    ensures Passes(g, path + [taken], b, k)
  {
    var i :| 0 <= i < |path| && Executes(g, Walk(g, ENTRY, path[..i]), path[i], b, k);
    assert (path + [taken])[..i] == path[..i] && (path + [taken])[i] == path[i];
  }

  /** A register that is assigned at the end of a path was assigned at a place passed on it. */
  lemma {:induction false} AssignedOnPath(g: Cfg, path: seq<bool>, r: nat)
    requires Walk(g, ENTRY, path).Point? && r in Walk(g, ENTRY, path).defined
    ensures exists b: nat, k: nat :: DefinesAt(g, b, k, r) && Passes(g, path, b, k)
    decreases |path|
  {
    if path != [] {
      var init, last := path[..|path| - 1], path[|path| - 1];
      assert path == init + [last];
      WalkOn(g, ENTRY, init, last);
      var s := Walk(g, ENTRY, init);
      MoveDefines(g, s, last, r);
      if r in s.defined {
        AssignedOnPath(g, init, r);
        var b: nat, k: nat :| DefinesAt(g, b, k, r) && Passes(g, init, b, k);
        PassesMore(g, init, last, b, k);
      } else {
        var b: nat, k: nat :| DefinesAt(g, b, k, r) && Executes(g, s, last, b, k);
        assert path[..|init|] == init && path[|init|] == last;
        assert Passes(g, path, b, k);
      }
    }
  }

  /** Every use is dominated by its definition: each register read after a path from the entry
      has exactly one definition in the function, and the path has passed it. */
  lemma UsesAreDominated(g: Cfg, checked: bool, mem: nat, ss: seq<Stmt>, path: seq<bool>, taken: bool, r: nat)
    requires IsCompiled(g, checked, mem, ss) && r in ReadsNext(g, Walk(g, ENTRY, path), taken)
    ensures exists b: nat, k: nat :: OnlyDefinition(g, b, k, r) && Passes(g, path, b, k)
  {
    NothingUndefined(g, checked, mem, ss, path + [taken]);
    WalkOn(g, ENTRY, path, taken);
    assert r in Walk(g, ENTRY, path).defined;
    AssignedOnPath(g, path, r);
    var b: nat, k: nat :| DefinesAt(g, b, k, r) && Passes(g, path, b, k);
    assert OnlyDefinition(g, b, k, r);
  }
}
