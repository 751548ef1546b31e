/** Where the code of each source statement lies in a control-flow graph, and the proof that
    code laid out this way simulates the source program. */
module BrainFLayout {
  import opened Wrappers
  import opened BrainFSource
  import opened BrainFIr

  /** A program point, with the register that holds the head there. */
  datatype Pos = Pos(blk: nat, pc: nat, head: nat)

  /** The code of one statement.  For a loop, `test` is its test block and `body` the layout
      of its body, which runs up to `back`. */
  datatype Item = Item(stmt: Stmt, start: Pos, end: Pos, body: seq<Item>, test: nat, back: Pos)

  // Registers and blocks fixed by the function header.
  const ARR: nat := 0
  const ARRMAX: nat := 1
  const FIRST_HEAD: nat := 2
  const END_BLOCK: nat := 1
  const ABERROR_BLOCK: nat := 2

  /** The blocks the header puts at the end of every function: free and return, and, with
      bounds checks, the error message. */
  predicate FooterOk(g: Cfg, checked: bool) {
    && |g| > END_BLOCK && g[END_BLOCK] == Block(None, [Free(ARR)], Some(Ret))
    && (checked ==> |g| > ABERROR_BLOCK && g[ABERROR_BLOCK] == Block(None, [Puts], Some(Br(END_BLOCK))))
  }

  predicate PosIn(g: Cfg, p: Pos) {
    p.blk < |g| && p.pc <= |g[p.blk].instrs|
  }

  predicate EndsIn(g: Cfg, p: Pos, t: Term) {
    PosIn(g, p) && p.pc == |g[p.blk].instrs| && g[p.blk].term == Some(t)
  }

  /** The instructions a statement other than a loop starts with. */
  predicate StraightCode(g: Cfg, checked: bool, it: Item) {
    var s, p := it.start, it.end;
    PosIn(g, s) &&
    var code, k := g[s.blk].instrs, s.pc;
    match it.stmt
    case Read =>
      && |code| >= k + 3 && code[k].Getchar? && code[k].dst >= 2 && code[k].dst != s.head
      && code[k + 1].Trunc8? && code[k + 1].src == code[k].dst && code[k + 1].dst >= 2 && code[k + 1].dst != s.head
      && code[k + 2] == Store(code[k + 1].dst, s.head)
      && p == Pos(s.blk, s.pc + 3, s.head)
    case Write =>
      && |code| >= k + 3 && code[k].Load? && code[k].ptr == s.head && code[k].dst >= 2 && code[k].dst != s.head
      && code[k + 1].SExt32? && code[k + 1].src == code[k].dst && code[k + 1].dst >= 2 && code[k + 1].dst != s.head
      && code[k + 2] == Putchar(code[k + 1].dst)
      && p == Pos(s.blk, s.pc + 3, s.head)
    case Change(d) =>
      && |code| >= k + 3 && code[k].Load? && code[k].ptr == s.head && code[k].dst >= 2 && code[k].dst != s.head
      && code[k + 1].Add8? && code[k + 1].src == code[k].dst && code[k + 1].k == d % 256 && code[k + 1].dst >= 2 && code[k + 1].dst != s.head
      && code[k + 2] == Store(code[k + 1].dst, s.head)
      && p == Pos(s.blk, s.pc + 3, s.head)
    case Move(d) =>
      && |code| >= k + 1 && p.head >= 2 && code[k] == Gep(p.head, s.head, d)
      && if !checked then p.blk == s.blk && p.pc == s.pc + 1 else
        && |code| == k + 4
        && code[k + 1].IcmpUge? && code[k + 1] == IcmpUge(code[k + 1].dst, p.head, ARRMAX) && code[k + 1].dst >= 2 && code[k + 1].dst != p.head
        && code[k + 2].IcmpUlt? && code[k + 2] == IcmpUlt(code[k + 2].dst, p.head, ARR) && code[k + 2].dst >= 2 && code[k + 2].dst != p.head
        && code[k + 2].dst != code[k + 1].dst
        && code[k + 3].Or1? && code[k + 3] == Or1(code[k + 3].dst, code[k + 1].dst, code[k + 2].dst) && code[k + 3].dst >= 2 && code[k + 3].dst != p.head
        && g[s.blk].term == Some(CondBr(code[k + 3].dst, ABERROR_BLOCK, p.blk))
        && p.pc == 0 && p.blk < |g| && g[p.blk].phi.None?
    case Loop(_) => false
  }

  /** The test block of a loop: the head phi, the load, the comparison and the branch. */
  predicate TestBlock(t: Block, exit: nat) {
    && t.phi.Some? && |t.instrs| == 2
    && var h := t.phi.value.dst;
    && h >= 2
    && t.instrs[0].Load? && t.instrs[0] == Load(t.instrs[0].dst, h)
    && t.instrs[0].dst >= 2 && t.instrs[0].dst != h
    && t.instrs[1].IcmpEq0? && t.instrs[1] == IcmpEq0(t.instrs[1].dst, t.instrs[0].dst)
    && t.instrs[1].dst >= 2 && t.instrs[1].dst != h
    && t.term.Some? && t.term.value.CondBr?
    && t.term.value.cond == t.instrs[1].dst
    && t.term.value.thn == exit
  }

  /** The blocks of a loop except its body: a branch to the test block, whose phi merges the
      head on entry with the head after the body; the test block; the start of the body; and
      the exit block, whose phi passes on the head of the test block. */
  predicate LoopFrame(g: Cfg, it: Item) {
    var s, p, t := it.start, it.end, it.test;
    && it.stmt.Loop?
    && EndsIn(g, s, Br(t)) && EndsIn(g, it.back, Br(t))
    && t < |g| && TestBlock(g[t], p.blk)
    && g[t].phi.value.incoming == [(s.head, s.blk), (it.back.head, it.back.blk)]
    && s.blk != it.back.blk
    && g[t].term.value.els < |g| && g[g[t].term.value.els].phi.None?
    && p.pc == 0 && p.head >= 2 && p.blk < |g| && g[p.blk].phi == Some(Phi(p.head, [(g[t].phi.value.dst, t)]))
  }

  /** Where the body of a loop starts. */
  function BodyStart(g: Cfg, it: Item): Pos
    requires LoopFrame(g, it)
  {
    Pos(g[it.test].term.value.els, 0, g[it.test].phi.value.dst)
  }

  ghost predicate LoopCode(g: Cfg, checked: bool, it: Item)
    decreases it, 1
  {
    LoopFrame(g, it) && Code(g, checked, it.body, it.stmt.body, BodyStart(g, it), it.back)
  }

  /** `items` is the code of `ss`, laid out from p to q. */
  ghost predicate Code(g: Cfg, checked: bool, items: seq<Item>, ss: seq<Stmt>, p: Pos, q: Pos)
    decreases items, 0
  {
    if items == [] then ss == [] && p == q && PosIn(g, p)
    else
      && ss != [] && items[0].stmt == ss[0] && items[0].start == p
      && (StraightCode(g, checked, items[0]) || LoopCode(g, checked, items[0]))
      && Code(g, checked, items[1..], ss[1..], items[0].end, q)
  }

  lemma {:induction false} CodeEnds(g: Cfg, checked: bool, items: seq<Item>, ss: seq<Stmt>, p: Pos, q: Pos)
    requires Code(g, checked, items, ss, p, q)
    ensures PosIn(g, p) && PosIn(g, q)
    decreases |items|
  {
    if items != [] {
      CodeEnds(g, checked, items[1..], ss[1..], items[0].end, q);
    }
  }

  lemma {:induction false} CodeAppend(g: Cfg, checked: bool, xs: seq<Item>, ss: seq<Stmt>, p: Pos, it: Item)
    requires Code(g, checked, xs, ss, p, it.start)
    requires StraightCode(g, checked, it) || LoopCode(g, checked, it)
    requires PosIn(g, it.end)
    ensures Code(g, checked, xs + [it], ss + [it.stmt], p, it.end)
    decreases |xs|
  {
    if xs == [] {
      assert Code(g, checked, [], [], it.end, it.end);
      assert (xs + [it])[1..] == [] && (ss + [it.stmt])[1..] == [];
    } else {
      CodeAppend(g, checked, xs[1..], ss[1..], xs[0].end, it);
      assert (xs + [it])[1..] == xs[1..] + [it] && (ss + [it.stmt])[1..] == ss[1..] + [it.stmt];
    }
  }

  // ----- Laid-out code survives later emission -----

  /** Blocks are only added; a terminated block is final; an open one only gets more
      instructions (and, for the test block `except`, a completed phi). */
  ghost predicate Extends(g: Cfg, g': Cfg, except: Option<nat>) {
    && |g| <= |g'|
    && forall b | 0 <= b < |g| && except != Some(b) :: BlockGrows(g[b], g'[b])
  }

  predicate BlockGrows(b: Block, b': Block) {
    if b.term.Some? then b' == b else b'.phi == b.phi && b.instrs <= b'.instrs
  }

  lemma ExtendsTrans(g: Cfg, g': Cfg, g'': Cfg, except: Option<nat>)
    requires Extends(g, g', except) && Extends(g', g'', except)
    ensures Extends(g, g'', except)
  {
    forall b | 0 <= b < |g| && except != Some(b) ensures BlockGrows(g[b], g''[b]) {
      assert BlockGrows(g[b], g'[b]) && BlockGrows(g'[b], g''[b]);
    }
  }

  /** The test block of a loop whose body is still being emitted. */
  predicate PendingTest(g: Cfg, t: nat) {
    && t < |g| && g[t].term.None? && g[t].instrs == [] && g[t].phi.Some?
    && |g[t].phi.value.incoming| == 1
    && var s := g[t].phi.value.incoming[0].1;
    && s < |g| && g[s].term == Some(Br(t))
  }

  lemma StraightStays(g: Cfg, g': Cfg, checked: bool, it: Item, except: Option<nat>)
    requires StraightCode(g, checked, it) && Extends(g, g', except)
    requires except.Some? ==> PendingTest(g, except.value)
    ensures StraightCode(g', checked, it)
  {
    var s, p := it.start, it.end;
    assert except != Some(s.blk);
    assert BlockGrows(g[s.blk], g'[s.blk]);
    if it.stmt.Move? && checked {
      assert except != Some(p.blk);
      assert BlockGrows(g[p.blk], g'[p.blk]);
    }
  }

  lemma FrameStays(g: Cfg, g': Cfg, it: Item, except: Option<nat>)
    requires LoopFrame(g, it) && Extends(g, g', except)
    requires except.Some? ==> PendingTest(g, except.value)
    ensures LoopFrame(g', it) && BodyStart(g', it) == BodyStart(g, it)
  {
    var t := it.test;
    var b := g[t].term.value.els;
    assert BlockGrows(g[it.start.blk], g'[it.start.blk]) && BlockGrows(g[t], g'[t]);
    assert BlockGrows(g[it.back.blk], g'[it.back.blk]);
    assert except != Some(b) && except != Some(it.end.blk);
    assert BlockGrows(g[b], g'[b]) && BlockGrows(g[it.end.blk], g'[it.end.blk]);
  }

  lemma {:induction false} CodeStays(g: Cfg, g': Cfg, checked: bool, items: seq<Item>, ss: seq<Stmt>, p: Pos, q: Pos, except: Option<nat>)
    requires Code(g, checked, items, ss, p, q) && Extends(g, g', except)
    requires except.Some? ==> PendingTest(g, except.value)
    ensures Code(g', checked, items, ss, p, q)
    decreases items
  {
    if items == [] {
      if except != Some(p.blk) {
        assert BlockGrows(g[p.blk], g'[p.blk]);
      }
    } else {
      if StraightCode(g, checked, items[0]) {
        StraightStays(g, g', checked, items[0], except);
      } else {
        FrameStays(g, g', items[0], except);
        CodeStays(g, g', checked, items[0].body, items[0].stmt.body, BodyStart(g, items[0]), items[0].back, except);
      }
      CodeStays(g, g', checked, items[1..], ss[1..], items[0].end, q, except);
    }
  }

  // ----- Whole functions -----

  /** What the header puts at the start of the entry block. */
  function EntryCode(checked: bool, mem: nat): seq<Instr> {
    [Malloc(ARR), Memset0(ARR, mem)]
    + (if checked then [Gep(ARRMAX, ARR, mem)] else [])
    + [Gep(FIRST_HEAD, ARR, mem / 2)]
  }

  /** A well-formed function that assigns each register in one place and whose body is the
      code of ss. */
  ghost predicate IsCompiled(g: Cfg, checked: bool, mem: nat, ss: seq<Stmt>) {
    && WellFormed(g) && FooterOk(g, checked) && (exists n: nat :: DefinedOnce(g, n))
    && g[0].phi.None? && EntryCode(checked, mem) <= g[0].instrs
    && exists items, back :: CodeToEnd(g, checked, items, ss, Pos(0, |EntryCode(checked, mem)|, FIRST_HEAD), back)
  }

  ghost predicate CodeToEnd(g: Cfg, checked: bool, items: seq<Item>, ss: seq<Stmt>, p: Pos, q: Pos) {
    Code(g, checked, items, ss, p, q) && EndsIn(g, q, Br(END_BLOCK))
  }
}
