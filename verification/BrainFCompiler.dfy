/** The one-pass compiler: a tokenizer with run-length merging and one symbol of lookahead,
    and a recursive code generator that appends to a growing control-flow graph. */
module BrainFCompiler {
  import opened Wrappers
  import opened BrainFSource
  import opened BrainFIr
  import opened BrainFLayout

  datatype Symbol = SymNone | SymRead | SymWrite | SymMove | SymChange | SymLoop | SymEndLoop | SymEof

  /** parse() aborts on unbalanced brackets; here it returns why. */
  datatype Status = Compiled | ExtraClose | MissingClose

  // ----- Edges while the graph grows -----

  /** The graph is well formed but for its open blocks: the one being filled and the test
      blocks of the loops around it. */
  ghost predicate WfOpen(g: Cfg, cur: nat, pending: set<nat>) {
    && 0 < |g| && cur < |g| && cur !in pending
    && (forall b | 0 <= b < |g| :: g[b].term.None? <==> b == cur || b in pending)
    && (forall t | t in pending :: PendingTest(g, t))
    && TargetsExist(g) && PhisMatch(g)
    && (forall a: nat :: !HasEdge(g, a, 0))
  }

  function SetTerm(g: Cfg, b: nat, t: Term): Cfg
    requires b < |g|
  {
    g[b := g[b].(term := Some(t))]
  }

  lemma SetTermEdges(g: Cfg, b: nat, t: Term)
    requires b < |g| && g[b].term.None?
    ensures forall x: nat, y: nat :: HasEdge(SetTerm(g, b, t), x, y) <==> HasEdge(g, x, y) || (x == b && y in Targets(t))
  {
  }

  lemma MorePhiMatches(g: Cfg, g': Cfg, b: nat, inc: seq<(nat, nat)>)
    requires PhiMatches(g, b, inc)
    requires forall x: nat :: HasEdge(g', x, b) <==> HasEdge(g, x, b)
    ensures PhiMatches(g', b, inc)
  {
  }

  /** Straight-line code leaves every edge and phi alone. */
  lemma AppendKeepsWf(g: Cfg, cur: nat, pending: set<nat>, code: seq<Instr>)
    requires WfOpen(g, cur, pending)
    ensures WfOpen(g[cur := g[cur].(instrs := g[cur].instrs + code)], cur, pending)
    ensures Extends(g, g[cur := g[cur].(instrs := g[cur].instrs + code)], None)
  {
    var g' := g[cur := g[cur].(instrs := g[cur].instrs + code)];
    assert forall x: nat, y: nat :: HasEdge(g', x, y) <==> HasEdge(g, x, y);
    forall b | 0 <= b < |g'| && g'[b].phi.Some? ensures PhiMatches(g', b, g'[b].phi.value.incoming) {
      assert PhiMatches(g, b, g[b].phi.value.incoming);
    }
    forall t | t in pending ensures PendingTest(g', t) {
      assert PendingTest(g, t);
    }
  }

  /** Ending the current block with a branch to blocks without phis, one of them new. */
  lemma BranchKeepsWf(g: Cfg, cur: nat, pending: set<nat>, t: Term)
    requires WfOpen(g, cur, pending)
    requires forall y | y in Targets(t) :: 0 < y <= |g| && (y < |g| ==> g[y].phi.None?)
    ensures var g' := SetTerm(g, cur, t) + [Block(None, [], None)];
      WfOpen(g', |g|, pending) && Extends(g, g', None)
  {
    var g' := SetTerm(g, cur, t) + [Block(None, [], None)];
    assert forall x: nat, y: nat :: HasEdge(g', x, y) <==> HasEdge(g, x, y) || (x == cur && y in Targets(t));
    forall b | 0 <= b < |g'| && g'[b].phi.Some? ensures PhiMatches(g', b, g'[b].phi.value.incoming) {
      assert PhiMatches(g, b, g[b].phi.value.incoming);
      MorePhiMatches(g, g', b, g[b].phi.value.incoming);
    }
    forall u | u in pending ensures PendingTest(g', u) {
      assert PendingTest(g, u);
    }
  }

  /** Opening a loop: a new test block holding the head phi, and a new body block. */
  function OpenLoop(g: Cfg, cur: nat, head: nat, dst: nat): Cfg
    requires cur < |g|
  {
    SetTerm(g, cur, Br(|g|)) + [Block(Some(Phi(dst, [(head, cur)])), [], None), Block(None, [], None)]
  }

  lemma OpenLoopWf(g: Cfg, cur: nat, pending: set<nat>, head: nat, dst: nat)
    requires WfOpen(g, cur, pending)
    ensures WfOpen(OpenLoop(g, cur, head, dst), |g| + 1, pending + {|g|})
    ensures Extends(g, OpenLoop(g, cur, head, dst), None)
  {
    var g' := OpenLoop(g, cur, head, dst);
    assert forall x: nat, y: nat :: HasEdge(g', x, y) <==> HasEdge(g, x, y) || (x == cur && y == |g|);
    forall b | 0 <= b < |g'| && g'[b].phi.Some? ensures PhiMatches(g', b, g'[b].phi.value.incoming) {
      if b < |g| {
        assert PhiMatches(g, b, g[b].phi.value.incoming);
        MorePhiMatches(g, g', b, g[b].phi.value.incoming);
      } else {
        assert g'[b].phi.value.incoming == [(head, cur)];
        assert forall x: nat | HasEdge(g', x, b) :: g'[b].phi.value.incoming[0].1 == x;
      }
    }
    forall u | u in pending + {|g|} ensures PendingTest(g', u) {
      if u != |g| {
        assert PendingTest(g, u);
      }
    }
  }

  /** Closing a loop: the branch back, the finished phi, the test, and the exit block. */
  function CloseLoop(g: Cfg, cur: nat, t: nat, head: nat, body: nat, tape: nat, test: nat, dst: nat): Cfg
    requires cur < |g| && PendingTest(g, t)
  {
    var phi := g[t].phi.value;
    SetTerm(g, cur, Br(t))
      [t := Block(Some(phi.(incoming := phi.incoming + [(head, cur)])), [Load(tape, phi.dst), IcmpEq0(test, tape)],
                  Some(CondBr(test, |g|, body)))]
      + [Block(Some(Phi(dst, [(phi.dst, t)])), [], None)]
  }

  lemma CloseLoopWf(g: Cfg, cur: nat, pending: set<nat>, t: nat, head: nat, body: nat, tape: nat, test: nat, dst: nat)
    requires WfOpen(g, cur, pending) && t in pending
    requires 0 < body < |g| && g[body].phi.None?
    ensures WfOpen(CloseLoop(g, cur, t, head, body, tape, test, dst), |g|, pending - {t})
    ensures Extends(g, CloseLoop(g, cur, t, head, body, tape, test, dst), Some(t))
    ensures g[t].phi.value.incoming[0].1 != cur
  {
    assert PendingTest(g, t);
    var g' := CloseLoop(g, cur, t, head, body, tape, test, dst);
    assert forall x: nat, y: nat :: HasEdge(g', x, y) <==>
      HasEdge(g, x, y) || (x == cur && y == t) || (x == t && (y == |g| || y == body));
    forall b | 0 <= b < |g'| && g'[b].phi.Some? ensures PhiMatches(g', b, g'[b].phi.value.incoming) {
      var inc' := g'[b].phi.value.incoming;
      if b == t {
        var inc := g[t].phi.value.incoming;
        assert PhiMatches(g, t, inc) && inc' == inc + [(head, cur)] && inc'[0] == inc[0] && inc'[1] == (head, cur);
        assert forall x: nat | HasEdge(g', x, b) :: x == inc'[0].1 || x == inc'[1].1;
      } else if b < |g| {
        assert PhiMatches(g, b, inc');
        MorePhiMatches(g, g', b, inc');
      } else {
        assert inc' == [(g[t].phi.value.dst, t)];
        assert forall x: nat | HasEdge(g', x, b) :: inc'[0].1 == x;
      }
    }
    forall u | u in pending - {t} ensures PendingTest(g', u) {
      assert PendingTest(g, u);
    }
  }

  /** The branch into a pending test block, read off its half-made phi. */
  function LoopStart(g: Cfg, t: nat): Pos
    requires PendingTest(g, t)
  {
    var (r, s) := g[t].phi.value.incoming[0];
    Pos(s, |g[s].instrs|, r)
  }

  /** While its body is compiled, a pending test block and its surroundings do not change. */
  lemma PendingStays(g0: Cfg, g1: Cfg, body: nat, t: nat)
    requires Extends(g0, g1, None) && PendingTest(g0, t) && PendingTest(g1, t) && body < |g0|
    ensures LoopStart(g1, t) == LoopStart(g0, t) && g1[t].phi == g0[t].phi && g1[body].phi == g0[body].phi
  {
    assert BlockGrows(g0[t], g1[t]) && BlockGrows(g0[body], g1[body]);
    assert BlockGrows(g0[LoopStart(g0, t).blk], g1[LoopStart(g0, t).blk]);
  }

  /** The closed loop, with the body compiled in between, is the code of the loop statement. */
  lemma ClosedLoopCode(g: Cfg, checked: bool, back: Pos, t: nat, body: nat, tape: nat, test: nat, dst: nat,
                       items: seq<Item>, ss: seq<Stmt>)
    requires PendingTest(g, t) && back.blk < |g| && back.pc == |g[back.blk].instrs| && g[back.blk].term.None? && back.blk != t
    requires body < |g| && g[body].phi.None? && g[t].phi.value.dst >= 2
    requires tape > g[t].phi.value.dst && test > g[t].phi.value.dst && dst >= 2
    requires Code(g, checked, items, ss, Pos(body, 0, g[t].phi.value.dst), back)
    requires Extends(g, CloseLoop(g, back.blk, t, back.head, body, tape, test, dst), Some(t))
    ensures LoopCode(CloseLoop(g, back.blk, t, back.head, body, tape, test, dst), checked,
                     Item(Loop(ss), LoopStart(g, t), Pos(|g|, 0, dst), items, t, back))
  {
    CodeStays(g, CloseLoop(g, back.blk, t, back.head, body, tape, test, dst), checked, items, ss,
              Pos(body, 0, g[t].phi.value.dst), back, Some(t));
  }

  lemma CloseLoopSize(g: Cfg, cur: nat, t: nat, head: nat, body: nat, n: nat, checked: bool)
    requires cur < |g| && PendingTest(g, t) && FooterOk(g, checked) && g[cur].term.None?
    ensures var g' := CloseLoop(g, cur, t, head, body, n, n + 1, n + 2);
      |g'| == |g| + 1 && g'[|g|].instrs == [] && FooterOk(g', checked)
  {
  }

  lemma OpenBlocks(g: Cfg, cur: nat, pending: set<nat>, t: nat)
    requires WfOpen(g, cur, pending) && t in pending
    ensures PendingTest(g, t) && cur < |g| && g[cur].term.None? && cur != t
  {
  }

  /** Closing a loop, if g1 grew from g0 while the body was compiled. */
  lemma ClosedBody(g0: Cfg, g1: Cfg, back: Pos, n: nat, pending: set<nat>, oldbb: nat, testbb: nat)
    requires 0 < oldbb < |g0| && g0[oldbb].phi.None?
    requires WfOpen(g1, back.blk, pending) && testbb in pending && PendingTest(g0, testbb) && Extends(g0, g1, None)
    ensures PendingTest(g1, testbb) && oldbb < |g1| && g1[oldbb].phi.None? && g1[testbb].phi == g0[testbb].phi
    ensures LoopStart(g1, testbb) == LoopStart(g0, testbb)
    ensures var g2 := CloseLoop(g1, back.blk, testbb, back.head, oldbb, n, n + 1, n + 2);
      WfOpen(g2, |g1|, pending - {testbb}) && Extends(g1, g2, Some(testbb)) && Extends(g0, g2, Some(testbb))
  {
    assert |g0| <= |g1| && Extends(g0, g1, Some(testbb));
    hide WfOpen, Extends, PendingTest, CloseLoop;
    OpenBlocks(g1, back.blk, pending, testbb);
    PendingStays(g0, g1, oldbb, testbb);
    CloseLoopWf(g1, back.blk, pending, testbb, back.head, oldbb, n, n + 1, n + 2);
    ExtendsTrans(g0, g1, CloseLoop(g1, back.blk, testbb, back.head, oldbb, n, n + 1, n + 2), Some(testbb));
  }

  /** Ending the function: with no loop pending, the branch to the end block leaves the
      whole graph well formed. */
  lemma FinishWf(g: Cfg, cur: nat)
    requires WfOpen(g, cur, {}) && 0 < END_BLOCK < |g| && g[END_BLOCK].phi.None?
    ensures WellFormed(SetTerm(g, cur, Br(END_BLOCK)))
  {
    var g' := SetTerm(g, cur, Br(END_BLOCK));
    SetTermEdges(g, cur, Br(END_BLOCK));
    forall b | 0 <= b < |g'| && g'[b].phi.Some? ensures PhiMatches(g', b, g'[b].phi.value.incoming) {
      assert PhiMatches(g, b, g[b].phi.value.incoming);
      MorePhiMatches(g, g', b, g[b].phi.value.incoming);
    }
  }

  // ----- Each register is assigned in one place -----

  /** The first `regs` instructions define the registers n, n + 1 and so on; the others none. */
  predicate DefinesInOrder(code: seq<Instr>, n: nat, regs: nat) {
    regs <= |code| && forall i | 0 <= i < |code| :: Defines(code[i]) == if i < regs then {n + i} else {}
  }

  lemma AppendDefines(g: Cfg, cur: nat, n: nat, code: seq<Instr>, regs: nat)
    requires cur < |g| && DefinedOnce(g, n) && DefinesInOrder(code, n, regs)
    ensures DefinedOnce(g[cur := g[cur].(instrs := g[cur].instrs + code)], n + regs)
  {
    var g' := g[cur := g[cur].(instrs := g[cur].instrs + code)];
    MoreDefinitions(g, g', n, seq(regs, i requires 0 <= i < regs => Site(cur, |g[cur].instrs| + i + 1)));
  }

  /** Ending a block and adding an empty one define nothing. */
  lemma BranchDefinesNothing(g: Cfg, cur: nat, n: nat, t: Term)
    requires cur < |g| && DefinedOnce(g, n)
    ensures DefinedOnce(SetTerm(g, cur, t), n) && DefinedOnce(SetTerm(g, cur, t) + [Block(None, [], None)], n)
  {
    MoreDefinitions(g, SetTerm(g, cur, t), n, []);
    MoreDefinitions(g, SetTerm(g, cur, t) + [Block(None, [], None)], n, []);
  }

  lemma OpenLoopDefinesPhi(g: Cfg, cur: nat, head: nat, n: nat)
    requires cur < |g| && DefinedOnce(g, n)
    ensures DefinedOnce(OpenLoop(g, cur, head, n), n + 1)
  {
    MoreDefinitions(g, OpenLoop(g, cur, head, n), n, [Site(|g|, 0)]);
  }

  lemma CloseLoopDefinesThree(g: Cfg, cur: nat, t: nat, head: nat, body: nat, n: nat)
    requires cur < |g| && PendingTest(g, t) && DefinedOnce(g, n)
    ensures DefinedOnce(CloseLoop(g, cur, t, head, body, n, n + 1, n + 2), n + 3)
  {
    MoreDefinitions(g, CloseLoop(g, cur, t, head, body, n, n + 1, n + 2), n, [Site(t, 1), Site(t, 2), Site(|g|, 0)]);
  }

  // ----- What the lookahead holds -----

  function StmtOf(s: Symbol, v: int): Stmt
    requires s != SymNone && s != SymLoop && s != SymEndLoop && s != SymEof
  {
    match s
    case SymRead => Read
    case SymWrite => Write
    case SymMove => Move(v)
    case SymChange => Change(v)
  }

  /** The merged parse of a symbol (with its run value) followed by a text. */
  function TokParse(s: Symbol, v: int, rest: string): Parse {
    match s
    case SymNone => MParse(rest)
    case SymLoop => LoopParse(MParse(rest))
    case SymEndLoop => Closed([], rest)
    case SymEof => AtEof([])
    case _ => PCons(StmtOf(s, v), MParse(rest))
  }

  predicate IsRun(s: Symbol) { s == SymMove || s == SymChange }

  /** Only a run has a next symbol, and not its own. */
  predicate SymbolsOk(s: Symbol, next: Symbol) {
    if IsRun(s) then next != SymNone && next != s else next == SymNone
  }

  /** The merged parse of the current symbol, the next one and the text not yet read. */
  function AheadParse(s: Symbol, v: int, next: Symbol, nextv: int, rest: string): Parse {
    if next == SymNone then TokParse(s, v, rest)
    else if IsRun(s) then PCons(StmtOf(s, v), TokParse(next, nextv, rest))
    else Unclosed
  }

  lemma NothingAhead(rest: string)
    ensures AheadParse(SymNone, 0, SymNone, 0, rest) == TokParse(SymNone, 0, rest)
    ensures PApp([], AheadParse(SymNone, 0, SymNone, 0, rest)) == MParse(rest) && SymbolsOk(SymNone, SymNone)
  {
    PAppNil(MParse(rest));
  }

  /** What is parsed once the current symbol ends the commands. */
  lemma AheadEnds(done: seq<Stmt>, s: Symbol, v: int, next: Symbol, nextv: int, rest: string)
    requires (s == SymEof || s == SymEndLoop) && SymbolsOk(s, next)
    ensures PApp(done, AheadParse(s, v, next, nextv, rest)) == if s == SymEndLoop then Closed(done, rest) else AtEof(done)
  {
    assert done + [] == done;
  }

  lemma NoneAhead(v: int, next: Symbol, nextv: int, rest: string)
    requires SymbolsOk(SymNone, next)
    ensures next == SymNone && AheadParse(SymNone, v, next, nextv, rest) == TokParse(next, nextv, rest)
  {
  }

  /** A command, and a run that is followed by a different symbol, is not merged any further. */
  lemma SymbolIsCut(s: Symbol, v: int, next: Symbol, nextv: int, rest: string)
    requires s != SymNone && s != SymLoop && s != SymEndLoop && s != SymEof
    requires SymbolsOk(s, next)
    ensures AheadParse(s, v, next, nextv, rest) == PApp([StmtOf(s, v)], TokParse(next, nextv, rest))
  {
  }

  /** One more statement behind code laid out from p. */
  lemma CodeGrows(g0: Cfg, g1: Cfg, g2: Cfg, checked: bool, items: seq<Item>, ss: seq<Stmt>, p: Pos, it: Item)
    requires Extends(g0, g1, None) && Extends(g1, g2, None)
    requires Code(g1, checked, items, ss, p, it.start)
    requires StraightCode(g2, checked, it) || LoopCode(g2, checked, it)
    requires PosIn(g2, it.end)
    ensures Extends(g0, g2, None) && Code(g2, checked, items + [it], ss + [it.stmt], p, it.end)
  {
    ExtendsTrans(g0, g1, g2, None);
    CodeStays(g1, g2, checked, items, ss, p, it.start, None);
    CodeAppend(g2, checked, items, ss, p, it);
  }

  lemma NoCode(g: Cfg, checked: bool, p: Pos)
    requires PosIn(g, p)
    ensures Code(g, checked, [], [], p, p) && Extends(g, g, None)
  {
  }

  lemma PAppAssoc(xs: seq<Stmt>, ys: seq<Stmt>, p: Parse)
    ensures PApp(xs, PApp(ys, p)) == PApp(xs + ys, p)
  {
    if !p.Unclosed? {
      assert xs + (ys + p.stmts) == xs + ys + p.stmts;
    }
  }

  lemma PAppNil(p: Parse)
    ensures PApp([], p) == p
  {
    if !p.Unclosed? {
      assert [] + p.stmts == p.stmts;
    }
  }

  lemma MConsTwice(a: Stmt, b: Stmt, c: Stmt, ss: seq<Stmt>)
    requires (a.Move? && b.Move? && c == Move(a.d + b.d)) || (a.Change? && b.Change? && c == Change(a.d + b.d))
    ensures MCons(a, MCons(b, ss)) == MCons(c, ss)
  {
    assert ([b] + ss)[1..] == ss;
    if ss != [] {
      assert ([MCons(b, ss)[0]] + ss[1..])[1..] == ss[1..];
    }
  }

  /** One more character of a run only changes its value. */
  lemma RunGrows(s: Symbol, v: int, d: int, p: Parse)
    requires IsRun(s)
    ensures PCons(StmtOf(s, v), PCons(StmtOf(s, d), p)) == PCons(StmtOf(s, v + d), p)
  {
    hide MCons;
    if !p.Unclosed? {
      MConsTwice(StmtOf(s, v), StmtOf(s, d), StmtOf(s, v + d), p.stmts);
    }
  }

  lemma NewTestExtends(g: Cfg, g': Cfg, g'': Cfg, t: nat)
    requires Extends(g, g', None) && Extends(g', g'', Some(t)) && |g| <= t
    ensures Extends(g, g'', None)
  {
    forall b | 0 <= b < |g| ensures BlockGrows(g[b], g''[b]) {
      assert BlockGrows(g[b], g'[b]) && BlockGrows(g'[b], g''[b]);
    }
  }

  function Weight(s: Symbol): nat { if s == SymNone || s == SymEof then 0 else 1 }

  // ----- The compiler -----

  class BrainF {
    var input: string    // the characters not yet read
    var memtotal: nat
    var checked: bool    // flag_arraybounds
    var blocks: Cfg      // the function under construction
    var cur: nat         // the builder's insertion block
    var curhead: nat     // the register holding the head
    var nextReg: nat     // the next unused register

    constructor ()
    {
      input, memtotal, checked, blocks, cur, curhead, nextReg := "", 0, false, [], 0, 0, 0;
    }

    ghost function Here(): Pos
      requires cur < |blocks|
      reads this
    {
      Pos(cur, |blocks[cur].instrs|, curhead)
    }

    ghost predicate Ready(pending: set<nat>)
      reads this
    {
      && WfOpen(blocks, cur, pending) && FooterOk(blocks, checked)
      && 2 <= curhead < nextReg && DefinedOnce(blocks, nextReg)
    }

    /** The state in which a loop body is started: an empty body block, the head in the phi
        of the pending test block. */
    ghost predicate InBody(phi: nat, oldbb: nat, testbb: nat)
      reads this
    {
      && PendingTest(blocks, testbb) && blocks[testbb].phi.value.dst == phi == curhead
      && cur == oldbb < |blocks| && blocks[oldbb] == Block(None, [], None) && 0 < oldbb
    }

    /** Append instructions at the insertion point; the first ones define new registers. */
    method Append(code: seq<Instr>, regs: nat, ghost pending: set<nat>)
      requires Ready(pending) && DefinesInOrder(code, nextReg, regs)
      modifies this`blocks, this`nextReg
      ensures Ready(pending) && Extends(old(blocks), blocks, None) && nextReg == old(nextReg) + regs
      ensures blocks == old(blocks)[cur := old(blocks)[cur].(instrs := old(blocks)[cur].instrs + code)]
    {
      hide DefinedOnce;
      AppendKeepsWf(blocks, cur, pending, code);
      AppendDefines(blocks, cur, nextReg, code, regs);
      blocks := blocks[cur := blocks[cur].(instrs := blocks[cur].instrs + code)];
      nextReg := nextReg + regs;
    }

    method EmitRead(ghost pending: set<nat>) returns (ghost it: Item)
      requires Ready(pending)
      modifies this`blocks, this`nextReg
      ensures Ready(pending) && Extends(old(blocks), blocks, None)
      ensures nextReg >= old(nextReg)
      ensures it.stmt == Read && it.start == old(Here()) && it.end == Here() && StraightCode(blocks, checked, it)
    {
      var tape0, tape1 := nextReg, nextReg + 1;
      hide DefinedOnce;
      it := Item(Read, Here(), Pos(cur, |blocks[cur].instrs| + 3, curhead), [], 0, Here());
      Append([Getchar(tape0), Trunc8(tape1, tape0), Store(tape1, curhead)], 2, pending);
    }

    method EmitWrite(ghost pending: set<nat>) returns (ghost it: Item)
      requires Ready(pending)
      modifies this`blocks, this`nextReg
      ensures Ready(pending) && Extends(old(blocks), blocks, None)
      ensures nextReg >= old(nextReg)
      ensures it.stmt == Write && it.start == old(Here()) && it.end == Here() && StraightCode(blocks, checked, it)
    {
      var tape0, tape1 := nextReg, nextReg + 1;
      hide DefinedOnce;
      it := Item(Write, Here(), Pos(cur, |blocks[cur].instrs| + 3, curhead), [], 0, Here());
      Append([Load(tape0, curhead), SExt32(tape1, tape0), Putchar(tape1)], 2, pending);
    }

    method EmitChange(value: int, ghost pending: set<nat>) returns (ghost it: Item)
      requires Ready(pending)
      modifies this`blocks, this`nextReg
      ensures Ready(pending) && Extends(old(blocks), blocks, None)
      ensures nextReg >= old(nextReg)
      ensures it.stmt == Change(value) && it.start == old(Here()) && it.end == Here() && StraightCode(blocks, checked, it)
    {
      var tape0, tape1 := nextReg, nextReg + 1;
      hide DefinedOnce;
      it := Item(Change(value), Here(), Pos(cur, |blocks[cur].instrs| + 3, curhead), [], 0, Here());
      Append([Load(tape0, curhead), Add8(tape1, tape0, value % 256), Store(tape1, curhead)], 2, pending);
    }

    /** A move, and with bounds checks the test and the branch to the error block. */
    method EmitMove(value: int, ghost pending: set<nat>) returns (ghost it: Item)
      requires Ready(pending)
      modifies this`blocks, this`nextReg, this`cur, this`curhead
      ensures Ready(pending) && Extends(old(blocks), blocks, None)
      ensures nextReg >= old(nextReg)
      ensures it.stmt == Move(value) && it.start == old(Here()) && it.end == Here() && StraightCode(blocks, checked, it)
    {
      ghost var start, g0 := Here(), blocks;
      var head, test0, test1, test2 := nextReg, nextReg + 1, nextReg + 2, nextReg + 3;
      hide DefinedOnce;
      if !checked {
        Append([Gep(head, curhead, value)], 1, pending);
        curhead := head;
      } else {
        Append([Gep(head, curhead, value), IcmpUge(test0, head, ARRMAX), IcmpUlt(test1, head, ARR), Or1(test2, test0, test1)],
               4, pending);
        ghost var g1 := blocks;
        var nextbb := |blocks|;
        BranchKeepsWf(blocks, cur, pending, CondBr(test2, ABERROR_BLOCK, nextbb));
        BranchDefinesNothing(blocks, cur, nextReg, CondBr(test2, ABERROR_BLOCK, nextbb));
        blocks := SetTerm(blocks, cur, CondBr(test2, ABERROR_BLOCK, nextbb)) + [Block(None, [], None)];
        ExtendsTrans(g0, g1, blocks, None);
        curhead, cur := head, nextbb;
      }
      it := Item(Move(value), start, Here(), [], 0, start);
    }

    /** The code of a command or a run. */
    method EmitSymbol(sym: Symbol, value: int, ghost pending: set<nat>) returns (ghost it: Item)
      requires Ready(pending) && sym != SymNone && sym != SymLoop && sym != SymEndLoop && sym != SymEof
      modifies this`blocks, this`nextReg, this`cur, this`curhead
      ensures Ready(pending) && Extends(old(blocks), blocks, None) && nextReg >= old(nextReg)
      ensures it.stmt == StmtOf(sym, value) && it.start == old(Here()) && it.end == Here() && StraightCode(blocks, checked, it)
    {
      match sym {
        case SymRead => it := EmitRead(pending);
        case SymWrite => it := EmitWrite(pending);
        case SymMove => it := EmitMove(value, pending);
        case SymChange => it := EmitChange(value, pending);
      }
    }

    /** The symbol reader: skip comments, extend the current run, and stop at a symbol that
        does not belong to it.  Only a run needs the lookahead. */
    method ReadAhead(sym: Symbol, value: int) returns (cursym: Symbol, curvalue: int, nextsym: Symbol, nextvalue: int)
      modifies this`input
      ensures AheadParse(cursym, curvalue, nextsym, nextvalue, input) == TokParse(sym, value, old(input))
      ensures cursym != SymNone
      ensures SymbolsOk(cursym, nextsym)
      ensures |input| + Weight(cursym) + Weight(nextsym) <= |old(input)| + Weight(sym)
    {
      cursym, curvalue, nextsym, nextvalue := sym, value, SymNone, 0;
      var loop := cursym == SymNone || IsRun(cursym);
      while loop
        invariant AheadParse(cursym, curvalue, nextsym, nextvalue, input) == TokParse(sym, value, old(input))
        invariant loop ==> nextsym == SymNone && (cursym == SymNone || IsRun(cursym))
        invariant !loop ==> cursym != SymNone
        invariant !loop ==> if IsRun(cursym) then nextsym != SymNone && nextsym != cursym else nextsym == SymNone
        invariant |input| + Weight(cursym) + Weight(nextsym) <= |old(input)| + Weight(sym)
        decreases loop, |input|
      {
        if input == "" {
          if cursym == SymNone { cursym := SymEof; } else { nextsym := SymEof; }
          loop := false;
        } else {
          var c := input[0];
          MParseStep(input);
          ghost var rest := MParse(input[1..]);
          input := input[1..];
          if c == '-' || c == '+' {
            var direction := if c == '-' then -1 else 1;
            if cursym == SymChange {
              RunGrows(SymChange, curvalue, direction, rest);
              curvalue := curvalue + direction;
            } else if cursym == SymNone {
              cursym, curvalue := SymChange, direction;
            } else {
              nextsym, nextvalue, loop := SymChange, direction, false;
            }
          } else if c == '<' || c == '>' {
            var direction := if c == '<' then -1 else 1;
            if cursym == SymMove {
              RunGrows(SymMove, curvalue, direction, rest);
              curvalue := curvalue + direction;
            } else if cursym == SymNone {
              cursym, curvalue := SymMove, direction;
            } else {
              nextsym, nextvalue, loop := SymMove, direction, false;
            }
          } else if c == ',' || c == '.' || c == '[' || c == ']' {
            var read := if c == ',' then SymRead else if c == '.' then SymWrite else if c == '[' then SymLoop else SymEndLoop;
            if cursym == SymNone { cursym := read; } else { nextsym := read; }
            loop := false;
          }
        }
      }
    }

    /** A '[': branch to a new test block, start its phi, and compile the body. */
    method CompileLoop(ghost pending: set<nat>) returns (status: Status, ghost it: Item)
      requires Ready(pending)
      modifies this`input, this`blocks, this`nextReg, this`cur, this`curhead
      ensures status == if MParse(old(input)).Closed? then Compiled else MissingClose
      ensures status == Compiled ==>
        && Ready(pending) && Extends(old(blocks), blocks, None) && nextReg >= old(nextReg)
        && input == MParse(old(input)).tail && it.stmt == Loop(MParse(old(input)).stmts)
        && it.start == old(Here()) && it.end == Here() && LoopCode(blocks, checked, it)
      decreases |input|, 5
    {
      ghost var g1, start, stmts := blocks, Here(), if MParse(input).Closed? then MParse(input).stmts else [];
      hide Code, LoopCode, StraightCode, Extends, PhisMatch, TargetsExist, FooterOk, MParse, DefinedOnce;
      var testbb, body := BeginLoop(pending);
      ghost var g2 := blocks;
      ghost var items, back;
      status, items, back := ReadLoop(Some(curhead), body, testbb, pending + {testbb});
      it := Item(Loop(stmts), start, if status == Compiled then Here() else start, items, testbb, back);
      if status == Compiled {
        assert pending + {testbb} - {testbb} == pending;
        NewTestExtends(g1, g2, blocks, testbb);
      }
    }

    /** Branch to a new test block, put the first half of the head phi there, and go on in a
        new body block with the phi as the head. */
    method BeginLoop(ghost pending: set<nat>) returns (testbb: nat, body: nat)
      requires Ready(pending)
      modifies this`blocks, this`nextReg, this`cur, this`curhead
      ensures Ready(pending + {testbb}) && Extends(old(blocks), blocks, None) && nextReg >= old(nextReg)
      ensures testbb == |old(blocks)| && testbb !in pending
      ensures InBody(curhead, body, testbb) && LoopStart(blocks, testbb) == old(Here())
    {
      assert forall t | t in pending :: PendingTest(blocks, t);
      testbb, body := |blocks|, |blocks| + 1;
      var head := nextReg;
      OpenLoopWf(blocks, cur, pending, curhead, head);
      OpenLoopDefinesPhi(blocks, cur, curhead, head);
      hide DefinedOnce;
      blocks := OpenLoop(blocks, cur, curhead, head);
      nextReg, curhead, cur := nextReg + 1, head, body;
    }

    /** A ']': branch back, complete the phi, emit the test, and go on in the exit block. */
    method CloseBody(oldbb: nat, testbb: nat, ghost p0: Pos, ghost items: seq<Item>, ghost done: seq<Stmt>, ghost g0: Cfg,
                     ghost pending: set<nat>)
      requires Ready(pending) && testbb in pending && PendingTest(g0, testbb) && Extends(g0, blocks, None)
      requires 0 < oldbb < |g0| && g0[oldbb].phi.None? && p0 == Pos(oldbb, 0, g0[testbb].phi.value.dst) && p0.head >= 2
      requires p0.head < nextReg
      requires Code(blocks, checked, items, done, p0, Here())
      modifies this`blocks, this`nextReg, this`cur, this`curhead
      ensures Ready(pending - {testbb}) && Extends(g0, blocks, Some(testbb)) && nextReg >= old(nextReg)
      ensures LoopCode(blocks, checked, Item(Loop(done), LoopStart(g0, testbb), Here(), items, testbb, old(Here())))
    {
      hide Code, LoopCode, StraightCode, PhisMatch, TargetsExist, Extends, DefinedOnce, FooterOk, PendingTest, CloseLoop;
      ClosedBody(g0, blocks, Here(), nextReg, pending, oldbb, testbb);
      OpenBlocks(blocks, cur, pending, testbb);
      CloseLoopSize(blocks, cur, testbb, curhead, oldbb, nextReg, checked);
      CloseLoopDefinesThree(blocks, cur, testbb, curhead, oldbb, nextReg);
      ClosedLoopCode(blocks, checked, Here(), testbb, oldbb, nextReg, nextReg + 1, nextReg + 2, items, done);
      var exit, tape0, test0, head := |blocks|, nextReg, nextReg + 1, nextReg + 2;
      blocks := CloseLoop(blocks, cur, testbb, curhead, oldbb, tape0, test0, head);
      nextReg, curhead, cur := nextReg + 3, head, exit;
    }

    /** The end of the text: branch to the end block. */
    method BranchToEnd(ghost p0: Pos, ghost items: seq<Item>, ghost done: seq<Stmt>, ghost g0: Cfg, ghost pending: set<nat>)
      requires Ready(pending) && Extends(g0, blocks, None)
      requires Code(blocks, checked, items, done, p0, Here())
      modifies this`blocks
      ensures FooterOk(blocks, checked) && Extends(g0, blocks, None)
      ensures Code(blocks, checked, items, done, p0, old(Here())) && EndsIn(blocks, old(Here()), Br(END_BLOCK))
      ensures DefinedOnce(blocks, nextReg)
      ensures pending == {} ==> WellFormed(blocks)
    {
      hide DefinedOnce;
      ghost var g1, back := blocks, Here();
      BranchDefinesNothing(blocks, cur, nextReg, Br(END_BLOCK));
      if pending == {} {
        FinishWf(blocks, cur);
      }
      blocks := SetTerm(blocks, cur, Br(END_BLOCK));
      ExtendsTrans(g0, g1, blocks, None);
      CodeStays(g1, blocks, checked, items, done, p0, back, None);
    }

    /** Compile commands until the end of the text or an unmatched ']'.  Inside a loop, phi is
        the head phi of its test block testbb, oldbb its body block, and pending names the
        test blocks of this loop and of those around it. */
    method ReadLoop(phi: Option<nat>, oldbb: nat, testbb: nat, ghost pending: set<nat>)
      returns (status: Status, ghost items: seq<Item>, ghost back: Pos)
      requires Ready(pending)
      requires phi.None? ==> pending == {}
      requires phi.Some? ==> testbb in pending && InBody(phi.value, oldbb, testbb)
      modifies this`input, this`blocks, this`nextReg, this`cur, this`curhead
      ensures phi.None? ==> status == match MParse(old(input)) case AtEof(_) => Compiled case Closed(_, _) => ExtraClose case Unclosed => MissingClose
      ensures phi.Some? ==> status == if MParse(old(input)).Closed? then Compiled else MissingClose
      ensures status == Compiled && phi.None? ==>
        && WellFormed(blocks) && DefinedOnce(blocks, nextReg) && FooterOk(blocks, checked) && Extends(old(blocks), blocks, None)
        && Code(blocks, checked, items, MParse(old(input)).stmts, old(Here()), back) && EndsIn(blocks, back, Br(END_BLOCK))
      ensures status == Compiled && phi.Some? ==>
        && Ready(pending - {testbb}) && Extends(old(blocks), blocks, Some(testbb)) && nextReg >= old(nextReg)
        && input == MParse(old(input)).tail
        && LoopCode(blocks, checked, Item(Loop(MParse(old(input)).stmts), LoopStart(old(blocks), testbb), Here(), items, testbb, back))
      decreases |input|, 4
    {
      hide DefinedOnce;
      ghost var g0, p0, done := blocks, Here(), [];
      var last, ok;
      last, ok, items, done := Commands(pending);
      back := Pos(0, 0, 0);
      if !ok {
        status := MissingClose;
      } else if last == SymEndLoop {
        if phi.None? {
          status := ExtraClose;
        } else {
          back := Here();
          CloseBody(oldbb, testbb, p0, items, done, g0, pending);
          status := Compiled;
        }
      } else {
        back := Here();
        BranchToEnd(p0, items, done, g0, pending);
        status := if phi.Some? then MissingClose else Compiled;
      }
    }

    /** The command loop: emit the current symbol, then read ahead. */
    method Commands(ghost pending: set<nat>) returns (cursym: Symbol, ok: bool, ghost items: seq<Item>, ghost done: seq<Stmt>)
      requires Ready(pending)
      modifies this`input, this`blocks, this`nextReg, this`cur, this`curhead
      ensures !ok ==> MParse(old(input)) == Unclosed
      ensures ok ==>
        && MParse(old(input)) == (if cursym == SymEndLoop then Closed(done, input) else AtEof(done))
        && Laid(old(blocks), old(Here()), items, done, pending) && nextReg >= old(nextReg)
      decreases |input|, 3
    {
      ghost var g0, p0 := blocks, Here();
      NoCode(blocks, checked, p0);
      assert Laid(g0, p0, [], [], pending);
      hide Code, LoopCode, StraightCode, Extends, WfOpen, FooterOk, DefinedOnce, MParse, TokParse, AheadParse, PApp, SymbolsOk, Laid;
      var curvalue, nextsym, nextvalue := 0, SymNone, 0;
      cursym, ok, items, done := SymNone, true, [], [];
      NothingAhead(input);
      ghost var all := MParse(input);
      while cursym != SymEof && cursym != SymEndLoop
        invariant Laid(g0, p0, items, done, pending) && nextReg >= old(nextReg)
        invariant all == PApp(done, AheadParse(cursym, curvalue, nextsym, nextvalue, input))
        invariant SymbolsOk(cursym, nextsym)
        invariant |input| + Weight(cursym) + Weight(nextsym) <= |old(input)|
        decreases cursym == SymNone, |input| + Weight(cursym) + Weight(nextsym)
      {
        ok, cursym, curvalue, nextsym, nextvalue, items, done :=
          Round(cursym, curvalue, nextsym, nextvalue, g0, p0, items, done, all, pending);
        if !ok {
          return;
        }
      }
      AheadEnds(done, cursym, curvalue, nextsym, nextvalue, input);
    }

    /** Emit the current symbol, unless there is none yet, and read ahead. */
    method Round(sym: Symbol, value: int, next: Symbol, nextv: int, ghost g0: Cfg, ghost p0: Pos,
                 ghost items: seq<Item>, ghost done: seq<Stmt>, ghost all: Parse, ghost pending: set<nat>)
      returns (ok: bool, sym': Symbol, value': int, next': Symbol, nextv': int, ghost items': seq<Item>, ghost done': seq<Stmt>)
      requires Laid(g0, p0, items, done, pending) && all == PApp(done, AheadParse(sym, value, next, nextv, input))
      requires SymbolsOk(sym, next) && sym != SymEndLoop && sym != SymEof
      modifies this`input, this`blocks, this`nextReg, this`cur, this`curhead
      ensures !ok ==> all == Unclosed
      ensures ok ==> Laid(g0, p0, items', done', pending) && nextReg >= old(nextReg)
      ensures ok ==> all == PApp(done', AheadParse(sym', value', next', nextv', input)) && SymbolsOk(sym', next')
      ensures ok ==> sym' != SymNone && |input| + Weight(sym') + Weight(next') <= |old(input)| + Weight(next)
      decreases |input| + Weight(sym), 2
    {
      hide AheadParse, TokParse, PApp, SymbolsOk, Code, Extends, WfOpen, FooterOk, DefinedOnce;
      ok, items', done' := true, items, done;
      if sym != SymNone {
        ok, items', done' := EmitCommand(sym, value, next, nextv, g0, p0, items, done, all, pending);
        if !ok {
          sym', value', next', nextv' := SymNone, 0, SymNone, 0;
          return;
        }
      } else {
        NoneAhead(value, next, nextv, input);
      }
      sym', value', next', nextv' := ReadAhead(next, nextv);
    }

    /** The graph extends g0 and holds the code of `done`, laid out from p0 to here. */
    ghost predicate Laid(g0: Cfg, p0: Pos, items: seq<Item>, done: seq<Stmt>, pending: set<nat>)
      reads this
    {
      Ready(pending) && Extends(g0, blocks, None) && Code(blocks, checked, items, done, p0, Here())
    }

    /** One round of the command loop: the code of the current symbol, behind that of the
        symbols before it. */
    method EmitCommand(sym: Symbol, value: int, ghost next: Symbol, ghost nextv: int, ghost g0: Cfg, ghost p0: Pos,
                       ghost items: seq<Item>, ghost done: seq<Stmt>, ghost all: Parse, ghost pending: set<nat>)
      returns (ok: bool, ghost items': seq<Item>, ghost done': seq<Stmt>)
      requires Laid(g0, p0, items, done, pending) && all == PApp(done, AheadParse(sym, value, next, nextv, input))
      requires sym != SymNone && sym != SymEndLoop && sym != SymEof
      requires SymbolsOk(sym, next)
      modifies this`input, this`blocks, this`nextReg, this`cur, this`curhead
      ensures !ok ==> all == Unclosed
      ensures ok ==> Laid(g0, p0, items', done', pending) && all == PApp(done', TokParse(next, nextv, input))
      ensures ok ==> nextReg >= old(nextReg) && |input| <= |old(input)|
      decreases |input|, 6
    {
      ghost var g1 := blocks;
      ghost var it;
      hide Code, LoopCode, StraightCode, Extends, PhisMatch, TargetsExist, PendingTest, FooterOk, DefinedOnce;
      if sym == SymLoop {
        var status;
        status, it := CompileLoop(pending);
        ok := status == Compiled;
      } else {
        SymbolIsCut(sym, value, next, nextv, input);
        it := EmitSymbol(sym, value, pending);
        ok := true;
      }
      items', done' := items, done;
      if ok {
        CodeGrows(g0, g1, blocks, checked, items, done, p0, it);
        PAppAssoc(done, [it.stmt], TokParse(next, nextv, input));
        items', done' := items + [it], done + [it.stmt];
      }
    }

    lemma HeaderDefines(g: Cfg, checked: bool, mem: nat)
      requires g == [Block(None, EntryCode(checked, mem), None), Block(None, [Free(ARR)], Some(Ret))]
        + (if checked then [Block(None, [Puts], Some(Br(END_BLOCK)))] else [])
      ensures DefinedOnce(g, FIRST_HEAD + 1)
    {
      var at := if checked then [Site(0, 1), Site(0, 3), Site(0, 4)] else [Site(0, 1), Site(0, 0), Site(0, 3)];
      forall b: nat, k: nat, r: nat | DefinesAt(g, b, k, r) ensures r < 3 && at[r] == Site(b, k) {}
    }

    /** The function preamble and the blocks at its end. */
    method Header()
      modifies this`blocks, this`nextReg, this`cur, this`curhead
      ensures Ready({}) && Here() == Pos(0, |EntryCode(checked, memtotal)|, FIRST_HEAD)
      ensures blocks[0] == Block(None, EntryCode(checked, memtotal), None)
    {
      blocks := [Block(None, EntryCode(checked, memtotal), None), Block(None, [Free(ARR)], Some(Ret))];
      if checked {
        blocks := blocks + [Block(None, [Puts], Some(Br(END_BLOCK)))];
      }
      cur, curhead, nextReg := 0, FIRST_HEAD, FIRST_HEAD + 1;
      HeaderDefines(blocks, checked, memtotal);
      assert forall x: nat, y: nat | HasEdge(blocks, x, y) :: y == END_BLOCK;
    }

    /** Compile a whole text. */
    method Parse(text: string, mem: nat, boundsChecks: bool) returns (status: Status)
      modifies this
      ensures status == match ParseSeq(text) case AtEof(_) => Compiled case Closed(_, _) => ExtraClose case Unclosed => MissingClose
      ensures status == Compiled <==> Balanced(text, 0)
      ensures status == Compiled ==> IsCompiled(blocks, boundsChecks, mem, Merge(ParseSeq(text).stmts))
    {
      input, memtotal, checked := text, mem, boundsChecks;
      ParseMeetsDepth(text, 0);
      Header();
      ghost var g0, p0 := blocks, Here();
      ghost var items, back;
      status, items, back := ReadLoop(None, 0, 0, {});
      if status == Compiled {
        assert BlockGrows(g0[0], blocks[0]);
        assert CodeToEnd(blocks, checked, items, MParse(text).stmts, p0, back);
      }
    }
  }
}
