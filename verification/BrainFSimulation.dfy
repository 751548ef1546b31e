/** Code laid out as in BrainFLayout simulates the source semantics, step counts included. */
module BrainFSimulation {
  import opened Wrappers
  import opened BrainFSource
  import opened BrainFIr
  import opened BrainFLayout

  /** The registers emitted code relies on: the tape bounds and the current head. */
  predicate EnvOk(m: Machine, env: Env, reg: nat, head: int) {
    && ARR in env && env[ARR] == m.base
    && (m.checked ==> ARRMAX in env && env[ARRMAX] == m.base + m.size)
    && reg in env && env[reg] == head
  }

  /** After n steps from s the graph is where the source outcome o says: at q, stopped, or
      still running after at least as many steps as fuel was spent. */
  predicate Matches(g: Cfg, m: Machine, s: State, n: nat, q: Pos, env: Env, o: Outcome, fuel: nat) {
    var s' := Steps(g, m, n, s);
    match o
    case Done(st, left) =>
      s' == Running(q.blk, q.pc, env, st.io) && EnvOk(m, env, q.head, st.head) && n + left >= fuel
    case LeftTape(st) => s' == Halted(st.io)
    case Fault(st) => s' == Faulted(st.io)
    case OutOfFuel(st) => s'.Running? && s'.io == st.io && n >= fuel
  }

  lemma Steps2(g: Cfg, m: Machine, s: State)
    ensures Steps(g, m, 2, s) == Step(g, m, Step(g, m, s))
  {
    assert Steps(g, m, 1, Step(g, m, s)) == Steps(g, m, 0, Step(g, m, Step(g, m, s)));
  }

  lemma Steps3(g: Cfg, m: Machine, s: State)
    ensures Steps(g, m, 3, s) == Step(g, m, Step(g, m, Step(g, m, s)))
  {
    Steps2(g, m, Step(g, m, s));
  }

  lemma InstrStep(g: Cfg, m: Machine, b: nat, pc: nat, env: Env, io: Io)
    requires b < |g| && pc < |g[b].instrs|
    ensures Step(g, m, Running(b, pc, env, io)) == ExecInstr(m, g[b].instrs[pc], Running(b, pc, env, io))
  {
  }

  lemma GepStep(g: Cfg, m: Machine, b: nat, pc: nat, env: Env, io: Io, dst: nat, ptr: nat, off: int)
    requires b < |g| && pc < |g[b].instrs| && g[b].instrs[pc] == Gep(dst, ptr, off) && ptr in env
    ensures Step(g, m, Running(b, pc, env, io)) == Running(b, pc + 1, env[dst := env[ptr] + off], io)
  {
  }

  lemma CharStep(g: Cfg, m: Machine, b: nat, pc: nat, env: Env, io: Io, dst: nat, low: nat)
    requires b < |g| && pc + 2 <= |g[b].instrs| && g[b].instrs[pc] == Getchar(dst) && g[b].instrs[pc + 1] == Trunc8(low, dst)
    ensures Step(g, m, Running(b, pc, env, io)) == Running(b, pc + 1, env[dst := io.Char()], io.Rest())
    ensures Step(g, m, Running(b, pc + 1, env[dst := io.Char()], io.Rest())) ==
      Running(b, pc + 2, env[dst := io.Char()][low := io.Char() % 256], io.Rest())
  {
  }

  lemma Add8Step(g: Cfg, m: Machine, b: nat, pc: nat, env: Env, io: Io, dst: nat, src: nat, k: Byte)
    requires b < |g| && pc < |g[b].instrs| && g[b].instrs[pc] == Add8(dst, src, k) && src in env
    ensures Step(g, m, Running(b, pc, env, io)) == Running(b, pc + 1, env[dst := (env[src] + k) % 256], io)
  {
  }

  lemma LoadStep(g: Cfg, m: Machine, b: nat, pc: nat, env: Env, io: Io, dst: nat, ptr: nat)
    requires b < |g| && pc < |g[b].instrs| && g[b].instrs[pc] == Load(dst, ptr) && ptr in env && m.CanAccess(env[ptr])
    ensures Step(g, m, Running(b, pc, env, io)) == Running(b, pc + 1, env[dst := io.Get(env[ptr])], io)
  {
  }

  lemma StoreStep(g: Cfg, m: Machine, b: nat, pc: nat, env: Env, io: Io, src: nat, ptr: nat)
    requires b < |g| && pc < |g[b].instrs| && g[b].instrs[pc] == Store(src, ptr) && src in env && 0 <= env[src] < 256
    requires ptr in env && m.CanAccess(env[ptr])
    ensures Step(g, m, Running(b, pc, env, io)) == Running(b, pc + 1, env, io.Set(env[ptr], env[src]))
  {
  }

  lemma BranchStep(g: Cfg, m: Machine, b: nat, env: Env, io: Io, w: nat, thn: nat, els: nat)
    requires b < |g| && g[b].term == Some(CondBr(w, thn, els)) && w in env
    requires thn < |g| && g[thn].phi.None? && els < |g| && g[els].phi.None?
    ensures Step(g, m, Running(b, |g[b].instrs|, env, io)) == Running(if env[w] != 0 then thn else els, 0, env, io)
  {
  }

  lemma ReadSim(g: Cfg, m: Machine, it: Item, env: Env, st: Core, fuel: nat) returns (n: nat, env': Env)
    requires it.stmt.Read? && StraightCode(g, m.checked, it) && EnvOk(m, env, it.start.head, st.head)
    ensures Matches(g, m, Running(it.start.blk, it.start.pc, env, st.io), n, it.end, env', ExecStmt(m, it.stmt, st, fuel), fuel)
  {
    hide Step;
    var p := it.start;
    var code := g[p.blk].instrs;
    var dst, low := code[p.pc].dst, code[p.pc + 1].dst;
    CharStep(g, m, p.blk, p.pc, env, st.io, dst, low);
    n, env' := 3, env[dst := st.io.Char()][low := st.io.Char() % 256];
    if m.CanAccess(st.head) {
      StoreStep(g, m, p.blk, p.pc + 2, env', st.io.Rest(), low, p.head);
    } else {
      InstrStep(g, m, p.blk, p.pc + 2, env', st.io.Rest());
    }
    Steps3(g, m, Running(p.blk, p.pc, env, st.io));
  }

  lemma WriteSim(g: Cfg, m: Machine, it: Item, env: Env, st: Core, fuel: nat) returns (n: nat, env': Env)
    requires it.stmt.Write? && StraightCode(g, m.checked, it) && EnvOk(m, env, it.start.head, st.head)
    ensures Matches(g, m, Running(it.start.blk, it.start.pc, env, st.io), n, it.end, env', ExecStmt(m, it.stmt, st, fuel), fuel)
  {
    var p := it.start;
    var code := g[p.blk].instrs;
    n := 3;
    var s0 := Running(p.blk, p.pc, env, st.io);
    Steps3(g, m, s0);
    env' := env;
    if m.CanAccess(st.head) {
      var b := st.io.Get(st.head);
      var env1 := env[code[p.pc].dst := b];
      assert Step(g, m, s0) == Running(p.blk, p.pc + 1, env1, st.io);
      env' := env1[code[p.pc + 1].dst := SignExtend(b)];
      assert Step(g, m, Step(g, m, s0)) == Running(p.blk, p.pc + 2, env', st.io);
      assert LowByte(SignExtend(b)) == b;
    } else {
      n := 1;
      assert Steps(g, m, 1, s0) == Step(g, m, s0);
    }
  }

  /** Adding d modulo 256 to a byte is adding d and wrapping. */
  lemma AddWraps(b: Byte, d: int)
    ensures (b + d % 256) % 256 == (b + d) % 256
  {
  }

  /** Load, add and store back. */
  lemma ChangeSteps(g: Cfg, m: Machine, blk: nat, pc: nat, u: nat, v: nat, k: Byte, p: nat, env: Env, h: int, io: Io)
    returns (env': Env)
    requires blk < |g| && pc + 3 <= |g[blk].instrs| && g[blk].instrs[pc] == Load(u, p)
    requires g[blk].instrs[pc + 1] == Add8(v, u, k) && g[blk].instrs[pc + 2] == Store(v, p)
    requires u >= 2 && v >= 2 && u != p && v != p && EnvOk(m, env, p, h) && m.CanAccess(h)
    ensures EnvOk(m, env', p, h)
    ensures Steps(g, m, 3, Running(blk, pc, env, io)) == Running(blk, pc + 3, env', io.Set(h, (io.Get(h) + k) % 256))
  {
    hide Step, Steps;
    var b := io.Get(h);
    var env1 := env[u := b];
    env' := env1[v := (b + k) % 256];
    LoadStep(g, m, blk, pc, env, io, u, p);
    Add8Step(g, m, blk, pc + 1, env1, io, v, u, k);
    StoreStep(g, m, blk, pc + 2, env', io, v, p);
    Steps3(g, m, Running(blk, pc, env, io));
  }

  lemma ChangeSim(g: Cfg, m: Machine, it: Item, env: Env, st: Core, fuel: nat) returns (n: nat, env': Env)
    requires it.stmt.Change? && StraightCode(g, m.checked, it) && EnvOk(m, env, it.start.head, st.head)
    ensures Matches(g, m, Running(it.start.blk, it.start.pc, env, st.io), n, it.end, env', ExecStmt(m, it.stmt, st, fuel), fuel)
  {
    hide Step, Steps;
    var p := it.start;
    var code := g[p.blk].instrs;
    if m.CanAccess(st.head) {
      AddWraps(st.io.Get(st.head), it.stmt.d);
      env' := ChangeSteps(g, m, p.blk, p.pc, code[p.pc].dst, code[p.pc + 1].dst, it.stmt.d % 256, p.head, env, st.head, st.io);
      n := 3;
    } else {
      n, env' := 1, env;
      InstrStep(g, m, p.blk, p.pc, env, st.io);
      StepsOne(g, m, Running(p.blk, p.pc, env, st.io));
    }
  }

  /** The error path: print the message, branch to the end block, free, return. */
  lemma AbortSim(g: Cfg, m: Machine, env: Env, io: Io)
    requires FooterOk(g, m.checked) && m.checked && ARR in env
    ensures Steps(g, m, 4, Running(ABERROR_BLOCK, 0, env, io)) == Halted(io.Emit(ErrorMessage))
  {
    var s0 := Running(ABERROR_BLOCK, 0, env, io);
    var s1 := Running(ABERROR_BLOCK, 1, env, io.Emit(ErrorMessage));
    assert Step(g, m, s0) == s1;
    var s2 := Running(END_BLOCK, 0, env, io.Emit(ErrorMessage));
    assert Step(g, m, s1) == s2;
    var s3 := Running(END_BLOCK, 1, env, io.Emit(ErrorMessage));
    assert Step(g, m, s2) == s3;
    Steps2(g, m, s0);
    Steps2(g, m, s2);
    StepsAdd(g, m, 2, 2, s0);
  }

  /** The comparisons of a bounds check: u, v and w get "too high", "too low" and "out". */
  lemma GuardEnv(m: Machine, env: Env, h: int, dst: nat, u: nat, v: nat, w: nat) returns (env2: Env, env3: Env, env4: Env)
    requires u >= 2 && v >= 2 && w >= 2 && u != dst && v != dst && w != dst && u != v
    requires m.checked && EnvOk(m, env, dst, h)
    ensures env2 == env[u := Bit(env[dst] >= env[ARRMAX])]
    ensures ARR in env2 && dst in env2 && env3 == env2[v := Bit(env2[dst] < env2[ARR])]
    ensures u in env3 && v in env3 && env4 == env3[w := Bit(env3[u] != 0 || env3[v] != 0)]
    ensures EnvOk(m, env4, dst, h) && env4[w] == Bit(!m.InTape(h))
  {
    env2 := env[u := Bit(h >= m.base + m.size)];
    env3 := env2[v := Bit(h < m.base)];
    env4 := env3[w := Bit(env3[u] != 0 || env3[v] != 0)];
    assert env3[u] == Bit(h >= m.base + m.size) && env3[v] == Bit(h < m.base);
  }

  /** The four instructions and the branch of a bounds-checked move. */
  lemma GuardSteps(g: Cfg, m: Machine, b: nat, pc: nat, i: Instr, u: nat, v: nat, w: nat, next: nat, env: Env, io: Io)
    returns (env': Env)
    requires b < |g| && pc + 4 == |g[b].instrs| && i.Gep? && i.ptr in env && i.dst >= 2
    requires u >= 2 && v >= 2 && w >= 2 && u != i.dst && v != i.dst && w != i.dst && u != v
    requires g[b].instrs[pc] == i && g[b].instrs[pc + 1] == IcmpUge(u, i.dst, ARRMAX)
    requires g[b].instrs[pc + 2] == IcmpUlt(v, i.dst, ARR) && g[b].instrs[pc + 3] == Or1(w, u, v)
    requires g[b].term == Some(CondBr(w, ABERROR_BLOCK, next))
    requires next < |g| && g[next].phi.None? && ABERROR_BLOCK < |g| && g[ABERROR_BLOCK].phi.None?
    requires m.checked && EnvOk(m, env, i.ptr, env[i.ptr])
    ensures EnvOk(m, env', i.dst, env[i.ptr] + i.off)
    ensures Steps(g, m, 5, Running(b, pc, env, io)) ==
      Running(if m.InTape(env[i.ptr] + i.off) then next else ABERROR_BLOCK, 0, env', io)
  {
    hide Step, Steps;
    var h := env[i.ptr] + i.off;
    var s0, env1 := Running(b, pc, env, io), env[i.dst := h];
    GepStep(g, m, b, pc, env, io, i.dst, i.ptr, i.off);
    env' := CompareStepsInRow(g, m, b, pc + 1, i.dst, u, v, w, env1, h, io);
    BranchStep(g, m, b, env', io, w, ABERROR_BLOCK, next);
    StepsOne(g, m, s0);
    StepsOne(g, m, Running(b, pc + 4, env', io));
    StepsAdd(g, m, 1, 3, s0);
    StepsAdd(g, m, 4, 1, s0);
  }

  lemma StepsOne(g: Cfg, m: Machine, s: State)
    ensures Steps(g, m, 1, s) == Step(g, m, s)
  {
    assert Steps(g, m, 0, Step(g, m, s)) == Step(g, m, s);
  }

  /** The two comparisons and their disjunction. */
  lemma CompareStepsInRow(g: Cfg, m: Machine, b: nat, pc: nat, dst: nat, u: nat, v: nat, w: nat, env: Env, h: int, io: Io)
    returns (env': Env)
    requires b < |g| && pc + 3 <= |g[b].instrs| && m.checked && EnvOk(m, env, dst, h)
    requires u >= 2 && v >= 2 && w >= 2 && u != dst && v != dst && w != dst && u != v
    requires g[b].instrs[pc] == IcmpUge(u, dst, ARRMAX) && g[b].instrs[pc + 1] == IcmpUlt(v, dst, ARR)
    requires g[b].instrs[pc + 2] == Or1(w, u, v)
    ensures EnvOk(m, env', dst, h) && w in env' && env'[w] == Bit(!m.InTape(h))
    ensures Steps(g, m, 3, Running(b, pc, env, io)) == Running(b, pc + 3, env', io)
  {
    hide Step, Steps;
    var env2, env3, env4 := GuardEnv(m, env, h, dst, u, v, w);
    env' := env4;
    InstrStep(g, m, b, pc, env, io);
    InstrStep(g, m, b, pc + 1, env2, io);
    InstrStep(g, m, b, pc + 2, env3, io);
    Steps3(g, m, Running(b, pc, env, io));
  }

  lemma CheckSteps(g: Cfg, m: Machine, it: Item, env: Env, st: Core) returns (env': Env)
    requires it.stmt.Move? && m.checked && StraightCode(g, m.checked, it)
    requires EnvOk(m, env, it.start.head, st.head) && FooterOk(g, m.checked)
    ensures EnvOk(m, env', it.end.head, st.head + it.stmt.d)
    ensures Steps(g, m, 5, Running(it.start.blk, it.start.pc, env, st.io)) ==
      Running(if m.InTape(st.head + it.stmt.d) then it.end.blk else ABERROR_BLOCK, 0, env', st.io)
  {
    var p := it.start;
    var code := g[p.blk].instrs;
    env' := GuardSteps(g, m, p.blk, p.pc, code[p.pc], code[p.pc + 1].dst, code[p.pc + 2].dst, code[p.pc + 3].dst,
                       it.end.blk, env, st.io);
  }

  lemma MoveSim(g: Cfg, m: Machine, it: Item, env: Env, st: Core, fuel: nat) returns (n: nat, env': Env)
    requires it.stmt.Move? && StraightCode(g, m.checked, it) && EnvOk(m, env, it.start.head, st.head) && FooterOk(g, m.checked)
    ensures Matches(g, m, Running(it.start.blk, it.start.pc, env, st.io), n, it.end, env', ExecStmt(m, it.stmt, st, fuel), fuel)
  {
    var p := it.start;
    var s0 := Running(p.blk, p.pc, env, st.io);
    if m.checked {
      env' := CheckSteps(g, m, it, env, st);
      n := 5;
      if !m.InTape(st.head + it.stmt.d) {
        AbortSim(g, m, env', st.io);
        StepsAdd(g, m, 5, 4, s0);
        n := 9;
      }
    } else {
      n, env' := 1, env[it.end.head := st.head + it.stmt.d];
      assert Steps(g, m, 1, s0) == Step(g, m, s0);
    }
  }

  lemma StraightSim(g: Cfg, m: Machine, it: Item, env: Env, st: Core, fuel: nat) returns (n: nat, env': Env)
    requires StraightCode(g, m.checked, it) && EnvOk(m, env, it.start.head, st.head) && FooterOk(g, m.checked)
    ensures Matches(g, m, Running(it.start.blk, it.start.pc, env, st.io), n, it.end, env', ExecStmt(m, it.stmt, st, fuel), fuel)
  {
    match it.stmt {
      case Read => n, env' := ReadSim(g, m, it, env, st, fuel);
      case Write => n, env' := WriteSim(g, m, it, env, st, fuel);
      case Change(_) => n, env' := ChangeSim(g, m, it, env, st, fuel);
      case Move(_) => n, env' := MoveSim(g, m, it, env, st, fuel);
    }
  }

  lemma IncomingPair(r0: nat, b0: nat, r1: nat, b1: nat)
    requires b0 != b1
    ensures Incoming([(r0, b0), (r1, b1)], b0) == Some(r0) && Incoming([(r0, b0), (r1, b1)], b1) == Some(r1)
  {
    assert [(r0, b0), (r1, b1)][1..] == [(r1, b1)];
  }

  /** Which edges lead into the test block of a loop, and the register each brings the head in. */
  predicate OnEdge(it: Item, r: nat, from: nat) {
    (r, from) == (it.start.head, it.start.blk) || (r, from) == (it.back.head, it.back.blk)
  }

  lemma EnterTest(g: Cfg, m: Machine, it: Item, r: nat, from: nat, env: Env, st: Core)
    requires LoopFrame(g, it) && OnEdge(it, r, from) && EnvOk(m, env, r, st.head)
    ensures Enter(g, from, it.test, env, st.io) ==
      Running(it.test, 0, env[g[it.test].phi.value.dst := st.head], st.io)
  {
    IncomingPair(it.start.head, it.start.blk, it.back.head, it.back.blk);
  }

  /** The load and the comparison of a test block, up to its branch. */
  lemma CompareSteps(g: Cfg, m: Machine, t: nat, exit: nat, env: Env, st: Core) returns (env': Env)
    requires t < |g| && TestBlock(g[t], exit) && EnvOk(m, env, g[t].phi.value.dst, st.head)
    ensures EnvOk(m, env', g[t].phi.value.dst, st.head)
    ensures !m.CanAccess(st.head) ==> Steps(g, m, 1, Running(t, 0, env, st.io)) == Faulted(st.io)
    ensures m.CanAccess(st.head) ==>
      Steps(g, m, 2, Running(t, 0, env, st.io)) == Running(t, 2, env', st.io)
      && g[t].term.value.cond in env' && env'[g[t].term.value.cond] == Bit(st.io.Get(st.head) == 0)
  {
    var s0, b := Running(t, 0, env, st.io), st.io.Get(st.head);
    if !m.CanAccess(st.head) {
      env' := env;
      assert Steps(g, m, 1, s0) == Step(g, m, s0);
    } else {
      var env1 := env[g[t].instrs[0].dst := b];
      var s1 := Running(t, 1, env1, st.io);
      assert Step(g, m, s0) == s1;
      env' := env1[g[t].instrs[1].dst := Bit(b == 0)];
      assert Step(g, m, s1) == Running(t, 2, env', st.io);
      Steps2(g, m, s0);
    }
  }

  /** One trip through a loop's test block: three steps to the start of the body or to the
      exit block, or a fault on the load. */
  lemma TestSteps(g: Cfg, m: Machine, it: Item, env: Env, st: Core) returns (env': Env)
    requires LoopFrame(g, it) && EnvOk(m, env, g[it.test].phi.value.dst, st.head)
    ensures m.CanAccess(st.head) ==>
      EnvOk(m, env', if st.io.Get(st.head) == 0 then it.end.head else g[it.test].phi.value.dst, st.head)
    ensures !m.CanAccess(st.head) ==> Steps(g, m, 1, Running(it.test, 0, env, st.io)) == Faulted(st.io)
    ensures m.CanAccess(st.head) ==>
      Steps(g, m, 3, Running(it.test, 0, env, st.io))
      == Running(if st.io.Get(st.head) == 0 then it.end.blk else g[it.test].term.value.els, 0, env', st.io)
  {
    var t := it.test;
    var s0 := Running(t, 0, env, st.io);
    env' := CompareSteps(g, m, t, it.end.blk, env, st);
    if m.CanAccess(st.head) {
      var s2 := Running(t, 2, env', st.io);
      if st.io.Get(st.head) == 0 {
        env' := env'[it.end.head := st.head];
        assert Step(g, m, s2) == Running(it.end.blk, 0, env', st.io);
      }
      StepsAdd(g, m, 2, 1, s0);
      assert Steps(g, m, 1, s2) == Steps(g, m, 0, Step(g, m, s2));
    }
  }

  /** The loop from its test block: induction on the fuel, one unit per test. */
  lemma {:induction false} LoopSim(g: Cfg, m: Machine, it: Item, r: nat, from: nat, env: Env, st: Core, fuel: nat)
    returns (n: nat, env': Env)
    requires LoopCode(g, m.checked, it) && OnEdge(it, r, from) && EnvOk(m, env, r, st.head) && FooterOk(g, m.checked)
    ensures Matches(g, m, Enter(g, from, it.test, env, st.io), n, it.end, env', ExecStmt(m, it.stmt, st, fuel), fuel)
    decreases fuel, it, 1
  {
    EnterTest(g, m, it, r, from, env, st);
    var s0 := Enter(g, from, it.test, env, st.io);
    n, env' := 0, s0.env;
    if fuel > 0 {
      env' := TestSteps(g, m, it, s0.env, st);
      if !m.CanAccess(st.head) {
        n := 1;
      } else if st.io.Get(st.head) == 0 {
        n := 3;
      } else {
        var k, env1 := IterationSim(g, m, it, env', st, fuel);
        StepsAdd(g, m, 3, k, s0);
        n, env' := 3 + k, env1;
      }
    }
  }

  /** The body, the branch back to the test block, and the rest of the loop from there. */
  lemma {:induction false} IterationSim(g: Cfg, m: Machine, it: Item, env: Env, st: Core, fuel: nat) returns (n: nat, env': Env)
    requires LoopCode(g, m.checked, it) && FooterOk(g, m.checked) && fuel > 0
    requires EnvOk(m, env, BodyStart(g, it).head, st.head)
    requires m.CanAccess(st.head) && st.io.Get(st.head) != 0
    ensures Matches(g, m, Running(BodyStart(g, it).blk, 0, env, st.io), n, it.end, env', ExecStmt(m, it.stmt, st, fuel), fuel - 1)
    decreases fuel, it, 0
  {
    var o := Exec(m, it.stmt.body, st, fuel - 1);
    n, env' := CodeSim(g, m, it.body, it.stmt.body, BodyStart(g, it), it.back, env, st, fuel - 1);
    assert ExecStmt(m, it.stmt, st, fuel) == if o.Done? then ExecStmt(m, it.stmt, o.st, o.fuel) else o;
    if o.Done? {
      var s1 := Running(it.back.blk, it.back.pc, env', o.st.io);
      var j, env2 := LoopSim(g, m, it, it.back.head, it.back.blk, env', o.st, o.fuel);
      assert Steps(g, m, 1 + j, s1) == Steps(g, m, j, Step(g, m, s1));
      StepsAdd(g, m, n, 1 + j, Running(BodyStart(g, it).blk, 0, env, st.io));
      n, env' := n + 1 + j, env2;
    }
  }

  lemma {:induction false} ItemSim(g: Cfg, m: Machine, it: Item, env: Env, st: Core, fuel: nat) returns (n: nat, env': Env)
    requires StraightCode(g, m.checked, it) || LoopCode(g, m.checked, it)
    requires EnvOk(m, env, it.start.head, st.head) && FooterOk(g, m.checked)
    ensures Matches(g, m, Running(it.start.blk, it.start.pc, env, st.io), n, it.end, env', ExecStmt(m, it.stmt, st, fuel), fuel)
    decreases fuel, it, 2
  {
    if StraightCode(g, m.checked, it) {
      n, env' := StraightSim(g, m, it, env, st, fuel);
    } else {
      var s0 := Running(it.start.blk, it.start.pc, env, st.io);
      var j, env1 := LoopSim(g, m, it, it.start.head, it.start.blk, env, st, fuel);
      assert Steps(g, m, 1 + j, s0) == Steps(g, m, j, Step(g, m, s0));
      n, env' := 1 + j, env1;
    }
  }

  /** Laid-out code simulates the statements it was laid out for. */
  lemma {:induction false} CodeSim(g: Cfg, m: Machine, items: seq<Item>, ss: seq<Stmt>, p: Pos, q: Pos, env: Env, st: Core, fuel: nat)
    returns (n: nat, env': Env)
    requires Code(g, m.checked, items, ss, p, q) && EnvOk(m, env, p.head, st.head) && FooterOk(g, m.checked)
    ensures Matches(g, m, Running(p.blk, p.pc, env, st.io), n, q, env', Exec(m, ss, st, fuel), fuel)
    decreases fuel, items, 0
  {
    n, env' := 0, env;
    if items != [] {
      n, env' := ItemSim(g, m, items[0], env, st, fuel);
      var o := ExecStmt(m, items[0].stmt, st, fuel);
      if o.Done? {
        var k, env2 := CodeSim(g, m, items[1..], ss[1..], items[0].end, q, env', o.st, o.fuel);
        StepsAdd(g, m, n, k, Running(p.blk, p.pc, env, st.io));
        n, env' := n + k, env2;
      }
    }
  }
}
