/** The fragment of LLVM IR the BrainF compiler emits, with a small-step semantics.
    Registers are numbered; a register holds an i32, an i8 (as 0..255), an i1 (as 0 or 1)
    or a pointer, all as integers.  Reading a register that has no value, entering a phi
    that has no entry for the edge taken, or falling off an unterminated block is Stuck. */
module BrainFIr {
  import opened Wrappers
  import opened BrainFSource

  datatype Instr =
    | Malloc(dst: nat)
    | Memset0(ptr: nat, n: nat)
    | Free(ptr: nat)
    | Puts
    | Getchar(dst: nat)
    | Putchar(src: nat)
    | Trunc8(dst: nat, src: nat)
    | SExt32(dst: nat, src: nat)
    | Load(dst: nat, ptr: nat)
    | Store(src: nat, ptr: nat)
    | Add8(dst: nat, src: nat, k: Byte)
    | Gep(dst: nat, ptr: nat, off: int)
    | IcmpUge(dst: nat, l: nat, r: nat)
    | IcmpUlt(dst: nat, l: nat, r: nat)
    | Or1(dst: nat, l: nat, r: nat)
    | IcmpEq0(dst: nat, src: nat)

  datatype Term = Br(target: nat) | CondBr(cond: nat, thn: nat, els: nat) | Ret

  /** One incoming value per predecessor: (register, block). */
  datatype Phi = Phi(dst: nat, incoming: seq<(nat, nat)>)

  datatype Block = Block(phi: Option<Phi>, instrs: seq<Instr>, term: Option<Term>)

  type Cfg = seq<Block>

  type Env = map<nat, int>

  datatype State =
    | Running(blk: nat, pc: nat, env: Env, io: Io)
    | Halted(io: Io)
    | Faulted(io: Io)
    | Stuck

  /** Sign extension of an i8, and the byte putchar writes for an i32. */
  function SignExtend(b: int): int { if b < 128 then b else b - 256 }
  function LowByte(v: int): Byte { v % 256 }

  function Bit(b: bool): int { if b then 1 else 0 }

  /** The memory after memset(ptr, 0, n). */
  function Zeroed(tape: map<int, Byte>, ptr: int, n: nat): map<int, Byte> {
    map a | a in tape && !(ptr <= a < ptr + n) :: tape[a]
  }

  /** Every register the instruction reads has a value. */
  predicate Defined(i: Instr, e: Env) {
    match i
    case Malloc(_) => true
    case Memset0(p, _) => p in e
    case Free(p) => p in e
    case Puts => true
    case Getchar(_) => true
    case Putchar(s) => s in e
    case Trunc8(_, s) => s in e
    case SExt32(_, s) => s in e
    case Load(_, p) => p in e
    case Store(s, p) => s in e && p in e
    case Add8(_, s, _) => s in e
    case Gep(_, p, _) => p in e
    case IcmpUge(_, l, r) => l in e && r in e
    case IcmpUlt(_, l, r) => l in e && r in e
    case Or1(_, l, r) => l in e && r in e
    case IcmpEq0(_, s) => s in e
  }

  function ExecInstr(m: Machine, i: Instr, s: State): State
    requires s.Running?
  {
    var e, io := s.env, s.io;
    var next := s.(pc := s.pc + 1);
    if !Defined(i, e) then Stuck else
    match i
    case Malloc(d) => next.(env := e[d := m.base])
    case Memset0(p, n) => next.(io := io.(tape := Zeroed(io.tape, e[p], n)))
    case Free(_) => next
    case Puts => next.(io := io.Emit(ErrorMessage))
    case Getchar(d) => next.(env := e[d := io.Char()], io := io.Rest())
    case Putchar(r) => next.(io := io.Emit(Out(LowByte(e[r]))))
    case Trunc8(d, r) => next.(env := e[d := e[r] % 256])
    case SExt32(d, r) => next.(env := e[d := SignExtend(e[r])])
    case Load(d, p) =>
      if m.CanAccess(e[p]) then next.(env := e[d := io.Get(e[p])]) else Faulted(io)
    case Store(r, p) =>
      if m.CanAccess(e[p]) then next.(io := io.Set(e[p], LowByte(e[r]))) else Faulted(io)
    case Add8(d, r, k) => next.(env := e[d := (e[r] + k) % 256])
    case Gep(d, p, k) => next.(env := e[d := e[p] + k])
    case IcmpUge(d, l, r) => next.(env := e[d := Bit(e[l] >= e[r])])
    case IcmpUlt(d, l, r) => next.(env := e[d := Bit(e[l] < e[r])])
    case Or1(d, l, r) => next.(env := e[d := Bit(e[l] != 0 || e[r] != 0)])
    case IcmpEq0(d, r) => next.(env := e[d := Bit(e[r] == 0)])
  }

  /** The register a phi takes on the edge from block `from`. */
  function Incoming(inc: seq<(nat, nat)>, from: nat): Option<nat> {
    if inc == [] then None
    else if inc[0].1 == from then Some(inc[0].0)
    else Incoming(inc[1..], from)
  }

  /** Take the edge from block `from` to block `to`. */
  function Enter(g: Cfg, from: nat, to: nat, env: Env, io: Io): State {
    if to >= |g| then Stuck
    else match g[to].phi
      case None => Running(to, 0, env, io)
      case Some(phi) =>
        match Incoming(phi.incoming, from)
        case Some(r) => if r in env then Running(to, 0, env[phi.dst := env[r]], io) else Stuck
        case None => Stuck
  }

  function Step(g: Cfg, m: Machine, s: State): State {
    if !s.Running? then s
    else if s.blk >= |g| then Stuck
    else
      var b := g[s.blk];
      if s.pc < |b.instrs| then ExecInstr(m, b.instrs[s.pc], s)
      else match b.term
        case None => Stuck
        case Some(Br(t)) => Enter(g, s.blk, t, s.env, s.io)
        case Some(CondBr(c, t, f)) =>
          if c in s.env then Enter(g, s.blk, if s.env[c] != 0 then t else f, s.env, s.io) else Stuck
        case Some(Ret) => Halted(s.io)
  }

  function Steps(g: Cfg, m: Machine, n: nat, s: State): State {
    if n == 0 then s else Steps(g, m, n - 1, Step(g, m, s))
  }

  lemma {:induction false} StepsAdd(g: Cfg, m: Machine, n: nat, k: nat, s: State)
    ensures Steps(g, m, n + k, s) == Steps(g, m, k, Steps(g, m, n, s))
  {
    if n > 0 {
      StepsAdd(g, m, n - 1, k, Step(g, m, s));
    }
  }

  /** A stopped state stays as it is. */
  lemma {:induction false} StoppedStays(g: Cfg, m: Machine, n: nat, s: State)
    requires !s.Running?
    ensures Steps(g, m, n, s) == s
  {
    if n > 0 {
      StoppedStays(g, m, n - 1, s);
    }
  }

  // ----- Definitions -----

  /** The registers an instruction reads, and the one it assigns. */
  function Uses(i: Instr): set<nat> {
    match i
    case Malloc(_) => {}
    case Memset0(p, _) => {p}
    case Free(p) => {p}
    case Puts => {}
    case Getchar(_) => {}
    case Putchar(s) => {s}
    case Trunc8(_, s) => {s}
    case SExt32(_, s) => {s}
    case Load(_, p) => {p}
    case Store(s, p) => {s, p}
    case Add8(_, s, _) => {s}
    case Gep(_, p, _) => {p}
    case IcmpUge(_, l, r) => {l, r}
    case IcmpUlt(_, l, r) => {l, r}
    case Or1(_, l, r) => {l, r}
    case IcmpEq0(_, s) => {s}
  }

  function Defines(i: Instr): set<nat> {
    match i
    case Malloc(d) => {d}
    case Memset0(_, _) => {}
    case Free(_) => {}
    case Puts => {}
    case Getchar(d) => {d}
    case Putchar(_) => {}
    case Trunc8(d, _) => {d}
    case SExt32(d, _) => {d}
    case Load(d, _) => {d}
    case Store(_, _) => {}
    case Add8(d, _, _) => {d}
    case Gep(d, _, _) => {d}
    case IcmpUge(d, _, _) => {d}
    case IcmpUlt(d, _, _) => {d}
    case Or1(d, _, _) => {d}
    case IcmpEq0(d, _) => {d}
  }

  /** The phi of block b (position 0) or its instruction k - 1 assigns register r. */
  predicate DefinesAt(g: Cfg, b: nat, k: nat, r: nat) {
    b < |g| &&
    if k == 0 then g[b].phi.Some? && g[b].phi.value.dst == r
    else k <= |g[b].instrs| && r in Defines(g[b].instrs[k - 1])
  }

  datatype Site = Site(blk: nat, pos: nat)

  /** Every register is below n and assigned in at most one place. */
  ghost predicate DefinedOnce(g: Cfg, n: nat) {
    && (forall b: nat, k: nat, r: nat | DefinesAt(g, b, k, r) :: r < n)
    && (forall b: nat, k: nat, c: nat, l: nat, r: nat | DefinesAt(g, b, k, r) && DefinesAt(g, c, l, r) :: b == c && k == l)
  }

  /** New definitions, in `added`, use registers from n on. */
  lemma MoreDefinitions(g: Cfg, g': Cfg, n: nat, added: seq<Site>)
    requires DefinedOnce(g, n)
    requires forall b: nat, k: nat, r: nat | DefinesAt(g', b, k, r) ::
      DefinesAt(g, b, k, r) || (n <= r < n + |added| && added[r - n] == Site(b, k))
    ensures DefinedOnce(g', n + |added|)
  {
  }

  // ----- Well-formed control flow -----

  function Targets(t: Term): set<nat> {
    match t
    case Br(b) => {b}
    case CondBr(_, b, c) => {b, c}
    case Ret => {}
  }

  predicate HasEdge(g: Cfg, a: nat, b: nat) {
    a < |g| && g[a].term.Some? && b in Targets(g[a].term.value)
  }

  /** Every phi has exactly one incoming value for each predecessor of its block. */
  ghost predicate PhisMatch(g: Cfg) {
    forall b | 0 <= b < |g| && g[b].phi.Some? :: PhiMatches(g, b, g[b].phi.value.incoming)
  }

  ghost predicate PhiMatches(g: Cfg, b: nat, inc: seq<(nat, nat)>) {
    && (forall i, j | 0 <= i < j < |inc| :: inc[i].1 != inc[j].1)
    && (forall i | 0 <= i < |inc| :: HasEdge(g, inc[i].1, b))
    && (forall a: nat | HasEdge(g, a, b) :: exists i :: 0 <= i < |inc| && inc[i].1 == a)
  }

  ghost predicate TargetsExist(g: Cfg) {
    forall a: nat, b: nat | HasEdge(g, a, b) :: b < |g|
  }

  /** The structural rules of the IR verifier: one terminator per block, branch targets that
      exist, phis that agree with the predecessors, and an entry block nothing branches to. */
  ghost predicate WellFormed(g: Cfg) {
    && |g| > 0
    && (forall b | 0 <= b < |g| :: g[b].term.Some?)
    && TargetsExist(g)
    && PhisMatch(g)
    && (forall a: nat :: !HasEdge(g, a, 0))
  }
}
