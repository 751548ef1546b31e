/** The main results about compiled programs: they do what the source does and never leave the tape. */
module BrainFCorrectness {
  import opened BrainFSource
  import opened BrainFText
  import opened BrainFIr
  import opened BrainFLayout
  import opened BrainFSimulation

  /** How a run starts: arbitrary memory contents before the tape is allocated and zeroed. */
  function IrStart(junk: map<int, Byte>, inp: seq<Byte>): State {
    Running(0, 0, map[], Io(junk, inp, []))
  }

  function SourceStart(m: Machine, junk: map<int, Byte>, inp: seq<Byte>): Core {
    Core(m.base + m.size / 2, Io(Zeroed(junk, m.base, m.size), inp, []))
  }

  /** The state a finished source run leaves the compiled program in. */
  function StopState(o: Outcome): State
    requires !o.OutOfFuel?
  {
    if o.Fault? then Faulted(o.st.io) else Halted(o.st.io)
  }

  /** From the entry block to the first emitted instruction. */
  lemma EntrySteps(g: Cfg, m: Machine, junk: map<int, Byte>, inp: seq<Byte>) returns (env: Env)
    requires |g| > 0 && EntryCode(m.checked, m.size) <= g[0].instrs
    ensures EnvOk(m, env, FIRST_HEAD, m.base + m.size / 2)
    ensures Steps(g, m, |EntryCode(m.checked, m.size)|, IrStart(junk, inp)) ==
      Running(0, |EntryCode(m.checked, m.size)|, env, SourceStart(m, junk, inp).io)
  {
    var code := EntryCode(m.checked, m.size);
    var io := SourceStart(m, junk, inp).io;
    assert forall k | 0 <= k < |code| :: g[0].instrs[k] == code[k];
    hide Step, Steps;
    AllocateSteps(g, m, junk, inp);
    if m.checked {
      env := BoundsSteps(g, m, IrStart(junk, inp), io);
    } else {
      env := HeadStep(g, m, IrStart(junk, inp), 2, map[ARR := m.base], io);
    }
  }

  /** Put the head in the middle of the tape. */
  lemma HeadStep(g: Cfg, m: Machine, s: State, n: nat, env: Env, io: Io) returns (env': Env)
    requires |g| > 0 && n < |g[0].instrs| && g[0].instrs[n] == Gep(FIRST_HEAD, ARR, m.size / 2)
    requires ARR in env && env[ARR] == m.base && Steps(g, m, n, s) == Running(0, n, env, io)
    requires m.checked ==> ARRMAX in env && env[ARRMAX] == m.base + m.size
    ensures EnvOk(m, env', FIRST_HEAD, m.base + m.size / 2)
    ensures Steps(g, m, n + 1, s) == Running(0, n + 1, env', io)
  {
    hide Step, Steps;
    env' := env[FIRST_HEAD := m.base + m.size / 2];
    GepStep(g, m, 0, n, env, io, FIRST_HEAD, ARR, m.size / 2);
    StepsOne(g, m, Running(0, n, env, io));
    StepsAdd(g, m, n, 1, s);
  }

  /** With bounds checks the end of the tape is computed first. */
  lemma BoundsSteps(g: Cfg, m: Machine, s: State, io: Io) returns (env': Env)
    requires |g| > 0 && |g[0].instrs| >= 4 && g[0].instrs[2] == Gep(ARRMAX, ARR, m.size)
    requires g[0].instrs[3] == Gep(FIRST_HEAD, ARR, m.size / 2)
    requires Steps(g, m, 2, s) == Running(0, 2, map[ARR := m.base], io)
    ensures EnvOk(m, env', FIRST_HEAD, m.base + m.size / 2)
    ensures Steps(g, m, 4, s) == Running(0, 4, env', io)
  {
    hide Step, Steps;
    var env1: Env := map[ARR := m.base];
    GepStep(g, m, 0, 2, env1, io, ARRMAX, ARR, m.size);
    StepsOne(g, m, Running(0, 2, env1, io));
    StepsAdd(g, m, 2, 1, s);
    env' := HeadStep(g, m, s, 3, env1[ARRMAX := m.base + m.size], io);
  }

  /** Allocate the tape and zero it. */
  lemma AllocateSteps(g: Cfg, m: Machine, junk: map<int, Byte>, inp: seq<Byte>)
    requires |g| > 0 && |g[0].instrs| >= 2 && g[0].instrs[0] == Malloc(ARR) && g[0].instrs[1] == Memset0(ARR, m.size)
    ensures Steps(g, m, 2, IrStart(junk, inp)) == Running(0, 2, map[ARR := m.base], SourceStart(m, junk, inp).io)
  {
    hide Step, Steps;
    InstrStep(g, m, 0, 0, map[], IrStart(junk, inp).io);
    InstrStep(g, m, 0, 1, map[ARR := m.base], IrStart(junk, inp).io);
    Steps2(g, m, IrStart(junk, inp));
  }

  /** From the end of the emitted code through the end block. */
  lemma ExitSteps(g: Cfg, m: Machine, q: Pos, env: Env, io: Io)
    requires FooterOk(g, m.checked) && EndsIn(g, q, Br(END_BLOCK)) && ARR in env
    ensures Steps(g, m, 3, Running(q.blk, q.pc, env, io)) == Halted(io)
  {
    var s0 := Running(q.blk, q.pc, env, io);
    assert Step(g, m, s0) == Running(END_BLOCK, 0, env, io);
    assert Step(g, m, Running(END_BLOCK, 0, env, io)) == Running(END_BLOCK, 1, env, io);
    Steps3(g, m, s0);
  }

  /** From the start to the end of the emitted code, or to where the source run stops. */
  lemma RunToBack(g: Cfg, m: Machine, ss: seq<Stmt>, items: seq<Item>, back: Pos, junk: map<int, Byte>, inp: seq<Byte>, fuel: nat)
    returns (n: nat, env: Env)
    requires |g| > 0 && EntryCode(m.checked, m.size) <= g[0].instrs && FooterOk(g, m.checked)
    requires CodeToEnd(g, m.checked, items, ss, Pos(0, |EntryCode(m.checked, m.size)|, FIRST_HEAD), back)
    ensures Matches(g, m, IrStart(junk, inp), n, back, env, Exec(m, ss, SourceStart(m, junk, inp), fuel), fuel)
  {
    hide Step, Steps;
    var k := |EntryCode(m.checked, m.size)|;
    var env0 := EntrySteps(g, m, junk, inp);
    var j, env' := CodeSim(g, m, items, ss, Pos(0, k, FIRST_HEAD), back, env0, SourceStart(m, junk, inp), fuel);
    StepsAdd(g, m, k, j, IrStart(junk, inp));
    n, env := k + j, env';
  }

  /** One direction, for a given amount of fuel: the compiled program stops as the source
      does, or is still running after at least that many steps, with the same io. */
  lemma RunFollowsSource(g: Cfg, m: Machine, ss: seq<Stmt>, junk: map<int, Byte>, inp: seq<Byte>, fuel: nat) returns (n: nat)
    requires IsCompiled(g, m.checked, m.size, ss)
    ensures var o := Exec(m, ss, SourceStart(m, junk, inp), fuel);
      var s := Steps(g, m, n, IrStart(junk, inp));
      if o.OutOfFuel? then s.Running? && s.io == o.st.io && n >= fuel else s == StopState(o)
  {
    hide Step, Steps, Exec, DefinedOnce, Code;
    var items, back :| CodeToEnd(g, m.checked, items, ss, Pos(0, |EntryCode(m.checked, m.size)|, FIRST_HEAD), back);
    var env;
    n, env := RunToBack(g, m, ss, items, back, junk, inp, fuel);
    var o := Exec(m, ss, SourceStart(m, junk, inp), fuel);
    if o.Done? {
      ExitSteps(g, m, back, env, o.st.io);
      StepsAdd(g, m, n, 3, IrStart(junk, inp));
      n := n + 3;
    }
  }

  /** The program is at its end block, and register r holds the head. */
  predicate AtEnd(s: State, r: nat, st: Core) {
    s.Running? && s.blk == END_BLOCK && s.pc == 0 && s.io == st.io && r in s.env && s.env[r] == st.head
  }

  /** A source run that is done takes the program to its end block with the same head. */
  lemma RunToEndBlock(g: Cfg, m: Machine, ss: seq<Stmt>, items: seq<Item>, back: Pos, junk: map<int, Byte>, inp: seq<Byte>, fuel: nat)
    requires IsCompiled(g, m.checked, m.size, ss)
    requires CodeToEnd(g, m.checked, items, ss, Pos(0, |EntryCode(m.checked, m.size)|, FIRST_HEAD), back)
    requires Exec(m, ss, SourceStart(m, junk, inp), fuel).Done?
    ensures exists n: nat :: AtEnd(Steps(g, m, n, IrStart(junk, inp)), back.head, Exec(m, ss, SourceStart(m, junk, inp), fuel).st)
  {
    hide Exec, Code, Steps;
    var n, env := RunToBack(g, m, ss, items, back, junk, inp, fuel);
    var o := Exec(m, ss, SourceStart(m, junk, inp), fuel);
    var s := Running(back.blk, back.pc, env, o.st.io);
    assert Step(g, m, s) == Running(END_BLOCK, 0, env, o.st.io);
    StepsOne(g, m, s);
    StepsAdd(g, m, n, 1, IrStart(junk, inp));
  }

  /** The two runs agree: the compiled program stops in a state exactly when the source
      does, it never gets stuck, while the source keeps looping so does the program, showing
      the same io at every loop test, and register r ends with the head of the source. */
  ghost predicate RunsLike(g: Cfg, m: Machine, ss: seq<Stmt>, r: nat, junk: map<int, Byte>, inp: seq<Byte>) {
    && (forall s: State | !s.Running? ::
          (exists n: nat :: Steps(g, m, n, IrStart(junk, inp)) == s)
          <==> (exists fuel: nat :: StopsAs(Exec(m, ss, SourceStart(m, junk, inp), fuel), s)))
    && (forall n: nat :: !Steps(g, m, n, IrStart(junk, inp)).Stuck?)
    && (forall fuel: nat | Exec(m, ss, SourceStart(m, junk, inp), fuel).OutOfFuel? ::
          exists n: nat :: n >= fuel && LoopsAs(Exec(m, ss, SourceStart(m, junk, inp), fuel), Steps(g, m, n, IrStart(junk, inp))))
    && (forall fuel: nat | Exec(m, ss, SourceStart(m, junk, inp), fuel).Done? ::
          exists n: nat :: AtEnd(Steps(g, m, n, IrStart(junk, inp)), r, Exec(m, ss, SourceStart(m, junk, inp), fuel).st))
  }

  ghost predicate AlwaysRunsLike(g: Cfg, m: Machine, ss: seq<Stmt>, r: nat) {
    forall junk, inp :: RunsLike(g, m, ss, r, junk, inp)
  }

  predicate StopsAs(o: Outcome, s: State) { !o.OutOfFuel? && StopState(o) == s }

  predicate LoopsAs(o: Outcome, s: State) { o.OutOfFuel? && s.Running? && s.io == o.st.io }

  /** If the program has stopped after n steps, the source stops within n loop tests, the same way. */
  lemma StopComesFromSource(g: Cfg, m: Machine, ss: seq<Stmt>, junk: map<int, Byte>, inp: seq<Byte>, n: nat)
    requires IsCompiled(g, m.checked, m.size, ss) && !Steps(g, m, n, IrStart(junk, inp)).Running?
    ensures StopsAs(Exec(m, ss, SourceStart(m, junk, inp), n), Steps(g, m, n, IrStart(junk, inp)))
  {
    var s0, s := IrStart(junk, inp), Steps(g, m, n, IrStart(junk, inp));
    var k := RunFollowsSource(g, m, ss, junk, inp, n);
    var o := Exec(m, ss, SourceStart(m, junk, inp), n);
    if k >= n {
      StepsAdd(g, m, n, k - n, s0);
      StoppedStays(g, m, k - n, s);
    } else {
      StepsAdd(g, m, k, n - k, s0);
      StoppedStays(g, m, n - k, Steps(g, m, k, s0));
    }
  }

  lemma OneRunLikeSource(g: Cfg, m: Machine, ss: seq<Stmt>, items: seq<Item>, back: Pos, junk: map<int, Byte>, inp: seq<Byte>)
    requires IsCompiled(g, m.checked, m.size, ss)
    requires CodeToEnd(g, m.checked, items, ss, Pos(0, |EntryCode(m.checked, m.size)|, FIRST_HEAD), back)
    ensures RunsLike(g, m, ss, back.head, junk, inp)
  {
    hide IsCompiled, Exec, Step, Steps, CodeToEnd;
    var s0, st0 := IrStart(junk, inp), SourceStart(m, junk, inp);
    forall n: nat | !Steps(g, m, n, s0).Running?
      ensures StopsAs(Exec(m, ss, st0, n), Steps(g, m, n, s0))
    {
      StopComesFromSource(g, m, ss, junk, inp, n);
    }
    forall fuel: nat, s: State | !s.Running? && StopsAs(Exec(m, ss, st0, fuel), s)
      ensures exists n: nat :: Steps(g, m, n, s0) == s
    {
      var n := RunFollowsSource(g, m, ss, junk, inp, fuel);
    }
    forall fuel: nat | Exec(m, ss, st0, fuel).OutOfFuel?
      ensures exists n: nat :: n >= fuel && LoopsAs(Exec(m, ss, st0, fuel), Steps(g, m, n, s0))
    {
      var n := RunFollowsSource(g, m, ss, junk, inp, fuel);
    }
    forall fuel: nat | Exec(m, ss, st0, fuel).Done?
      ensures exists n: nat :: AtEnd(Steps(g, m, n, s0), back.head, Exec(m, ss, st0, fuel).st)
    {
      RunToEndBlock(g, m, ss, items, back, junk, inp, fuel);
    }
  }

  /** Compiler correctness, for every machine (strict or idealised, checked or not), every
      input and whatever the memory held before. */
  lemma CompiledRunsLikeSource(g: Cfg, m: Machine, ss: seq<Stmt>)
    requires IsCompiled(g, m.checked, m.size, ss)
    ensures exists r: nat :: AlwaysRunsLike(g, m, ss, r)
  {
    hide RunsLike, Code;
    var items, back :| CodeToEnd(g, m.checked, items, ss, Pos(0, |EntryCode(m.checked, m.size)|, FIRST_HEAD), back);
    forall junk, inp ensures RunsLike(g, m, ss, back.head, junk, inp) {
      OneRunLikeSource(g, m, ss, items, back, junk, inp);
    }
    assert AlwaysRunsLike(g, m, ss, back.head);
  }

  // ----- Compiled texts do what the text says -----

  /** The program stops, by halting or by a fault, where the machine that runs the text does. */
  predicate StopsAsText(t: TextState, s: State) {
    !t.At? && s == if t.BadAccess? then Faulted(t.st.io) else Halted(t.st.io)
  }

  predicate SameIo(t: TextState, s: State) { t.At? && s.Running? && s.io == t.st.io }

  /** Later than after k steps, the machine and the program have been at the same input, output and memory. */
  ghost predicate MeetBeyond(g: Cfg, m: Machine, text: string, junk: map<int, Byte>, inp: seq<Byte>, k: nat) {
    exists i: nat, j: nat :: i >= k && j >= k &&
      SameIo(TextRun(m, text, i, At(0, TextStart(m, junk, inp))), Steps(g, m, j, IrStart(junk, inp)))
  }

  /** The program stops in a state exactly if the text does, and never gets stuck; if the text
      ends, register r has its head; if it runs forever, the two keep meeting. */
  ghost predicate RunsText(g: Cfg, m: Machine, text: string, r: nat, junk: map<int, Byte>, inp: seq<Byte>) {
    var t0 := At(0, TextStart(m, junk, inp));
    && (forall s: State | !s.Running? ::
          (exists n: nat :: Steps(g, m, n, IrStart(junk, inp)) == s)
          <==> (exists n: nat :: StopsAsText(TextRun(m, text, n, t0), s)))
    && (forall n: nat :: !Steps(g, m, n, IrStart(junk, inp)).Stuck?)
    && (forall k: nat | TextRun(m, text, k, t0).Ended? ::
          exists n: nat :: AtEnd(Steps(g, m, n, IrStart(junk, inp)), r, TextRun(m, text, k, t0).st))
    && ((forall n: nat :: TextRun(m, text, n, t0).At?) ==> forall k: nat :: MeetBeyond(g, m, text, junk, inp, k))
  }

  ghost predicate AlwaysRunsText(g: Cfg, m: Machine, text: string, r: nat) {
    forall junk, inp :: RunsText(g, m, text, r, junk, inp)
  }

  lemma SameStops(m: Machine, text: string, junk: map<int, Byte>, inp: seq<Byte>, s: State)
    requires ParseSeq(text).AtEof?
    ensures (exists n: nat :: StopsAsText(TextRun(m, text, n, At(0, TextStart(m, junk, inp))), s))
       <==> (exists fuel: nat :: StopsAs(Exec(m, MParse(text).stmts, SourceStart(m, junk, inp), fuel), s))
  {
    assert MParse(text).AtEof?;
    hide Exec, TextRun, MParse;
    var st := TextStart(m, junk, inp);
    assert st == SourceStart(m, junk, inp);
    if n: nat :| StopsAsText(TextRun(m, text, n, At(0, st)), s) {
      StopComesFromStmts(m, text, st, n);
      assert StopsAs(Exec(m, MParse(text).stmts, st, n), s);
    }
    if fuel: nat :| StopsAs(Exec(m, MParse(text).stmts, st, fuel), s) {
      var n := TextFollows(m, text, st, fuel);
      assert StopsAsText(TextRun(m, text, n, At(0, st)), s);
    }
  }

  lemma ProgramStops(g: Cfg, m: Machine, ss: seq<Stmt>, r: nat, junk: map<int, Byte>, inp: seq<Byte>, s: State)
    requires RunsLike(g, m, ss, r, junk, inp) && !s.Running?
    ensures (exists n: nat :: Steps(g, m, n, IrStart(junk, inp)) == s)
       <==> (exists fuel: nat :: StopsAs(Exec(m, ss, SourceStart(m, junk, inp), fuel), s))
  {
    hide Exec, Steps;
    if n: nat :| Steps(g, m, n, IrStart(junk, inp)) == s {
      assert exists fuel: nat :: StopsAs(Exec(m, ss, SourceStart(m, junk, inp), fuel), s);
    }
    if fuel: nat :| StopsAs(Exec(m, ss, SourceStart(m, junk, inp), fuel), s) {
      assert exists n: nat :: Steps(g, m, n, IrStart(junk, inp)) == s;
    }
  }

  lemma OneRunLikeText(g: Cfg, m: Machine, text: string, r: nat, junk: map<int, Byte>, inp: seq<Byte>)
    requires ParseSeq(text).AtEof? && RunsLike(g, m, MParse(text).stmts, r, junk, inp)
    ensures RunsText(g, m, text, r, junk, inp)
  {
    assert MParse(text).AtEof?;
    hide Exec, TextRun, TextStep, MParse, Step, Steps;
    var st, ss := TextStart(m, junk, inp), MParse(text).stmts;
    var s0, t0 := IrStart(junk, inp), At(0, st);
    assert st == SourceStart(m, junk, inp);
    hide TextStart, SourceStart, IrStart;
    forall s: State | !s.Running?
      ensures (exists n: nat :: Steps(g, m, n, s0) == s) <==> (exists n: nat :: StopsAsText(TextRun(m, text, n, t0), s))
    {
      SameStops(m, text, junk, inp, s);
      ProgramStops(g, m, ss, r, junk, inp, s);
    }
    forall k: nat | TextRun(m, text, k, t0).Ended?
      ensures exists n: nat :: AtEnd(Steps(g, m, n, s0), r, TextRun(m, text, k, t0).st)
    {
      StopComesFromStmts(m, text, st, k);
      assert Exec(m, ss, st, k).Done?;
    }
    if forall n: nat :: TextRun(m, text, n, t0).At? {
      forall k: nat ensures MeetBeyond(g, m, text, junk, inp, k) {
        var i := TextFollows(m, text, st, k);
        assert Exec(m, ss, st, k).OutOfFuel?;
        var j: nat :| j >= k && LoopsAs(Exec(m, ss, st, k), Steps(g, m, j, s0));
        assert SameIo(TextRun(m, text, i, t0), Steps(g, m, j, s0));
      }
    }
  }

  /** Compiler correctness down to the text, for every balanced text, machine and input. */
  lemma CompiledRunsLikeText(g: Cfg, m: Machine, text: string)
    requires ParseSeq(text).AtEof? && IsCompiled(g, m.checked, m.size, Merge(ParseSeq(text).stmts))
    ensures exists r: nat :: AlwaysRunsText(g, m, text, r)
  {
    var ss := Merge(ParseSeq(text).stmts);
    CompiledRunsLikeSource(g, m, ss);
    assert MParse(text).stmts == ss;
    hide IsCompiled, RunsLike, RunsText, MParse, Merge, ParseSeq;
    var r: nat :| AlwaysRunsLike(g, m, ss, r);
    forall junk, inp ensures RunsText(g, m, text, r, junk, inp) {
      assert RunsLike(g, m, ss, r, junk, inp);
      OneRunLikeText(g, m, text, r, junk, inp);
    }
    assert AlwaysRunsText(g, m, text, r);
  }

  /** Without bounds checks, the compiled text behaves as the text run one character at a
      time, and as its statements with no run merged. */
  lemma UncheckedRunsCharByChar(g: Cfg, m: Machine, text: string)
    requires ParseSeq(text).AtEof? && !m.checked
    requires IsCompiled(g, false, m.size, Merge(ParseSeq(text).stmts))
    ensures exists r: nat :: AlwaysRunsLike(g, m, ParseSeq(text).stmts, r) && AlwaysRunsText(g, m, text, r)
  {
    var ss := ParseSeq(text).stmts;
    CompiledRunsLikeSource(g, m, Merge(ss));
    assert MParse(text).stmts == Merge(ss);
    hide IsCompiled, RunsLike, RunsText, MParse, Merge, ParseSeq;
    var r: nat :| AlwaysRunsLike(g, m, Merge(ss), r);
    forall junk, inp ensures RunsLike(g, m, ss, r, junk, inp) && RunsText(g, m, text, r, junk, inp) {
      assert RunsLike(g, m, Merge(ss), r, junk, inp);
      UnmergedRunsLike(g, m, ss, r, junk, inp);
      OneRunLikeText(g, m, text, r, junk, inp);
    }
    assert AlwaysRunsLike(g, m, ss, r) && AlwaysRunsText(g, m, text, r);
  }

  lemma UnmergedRunsLike(g: Cfg, m: Machine, ss: seq<Stmt>, r: nat, junk: map<int, Byte>, inp: seq<Byte>)
    requires !m.checked && RunsLike(g, m, Merge(ss), r, junk, inp)
    ensures RunsLike(g, m, ss, r, junk, inp)
  {
    forall fuel: nat
      ensures Exec(m, Merge(ss), SourceStart(m, junk, inp), fuel) == Exec(m, ss, SourceStart(m, junk, inp), fuel)
    {
      MergeExec(m, ss, SourceStart(m, junk, inp), fuel);
    }
  }

  /** Tape safety: with bounds checks and a tape, no run ever accesses memory outside it. */
  lemma CheckedNeverFaults(g: Cfg, m: Machine, ss: seq<Stmt>, junk: map<int, Byte>, inp: seq<Byte>, n: nat)
    requires IsCompiled(g, m.checked, m.size, ss) && m.checked && m.size > 0
    ensures !Steps(g, m, n, IrStart(junk, inp)).Faulted?
  {
    if Steps(g, m, n, IrStart(junk, inp)).Faulted? {
      StopComesFromSource(g, m, ss, junk, inp, n);
      CheckedOnTape(m, ss, SourceStart(m, junk, inp), n);
    }
  }

  /** An empty tape is not safe even with checks, because the head is only tested after moves:
      a checked program faults exactly if memory is strict, the tape is empty and the first
      statement is not a move. */
  lemma FaultsOnEmptyTape(g: Cfg, m: Machine, ss: seq<Stmt>, junk: map<int, Byte>, inp: seq<Byte>)
    requires IsCompiled(g, m.checked, m.size, ss) && m.checked
    ensures (exists n: nat :: Steps(g, m, n, IrStart(junk, inp)).Faulted?) <==>
      m.strict && m.size == 0 && ss != [] && !ss[0].Move?
  {
    hide IsCompiled, Steps;
    var st := SourceStart(m, junk, inp);
    if n: nat :| Steps(g, m, n, IrStart(junk, inp)).Faulted? {
      StopComesFromSource(g, m, ss, junk, inp, n);
      assert Exec(m, ss, st, n).Fault?;
      if m.CanAccess(st.head) {
        CheckedOnTape(m, ss, st, n);
        assert false;
      }
      assert m.strict && m.size == 0 && ss != [] && !ss[0].Move?;
    }
    if m.strict && m.size == 0 && ss != [] && !ss[0].Move? {
      assert ExecStmt(m, ss[0], st, 1).Fault?;
      assert Exec(m, ss, st, 1).Fault?;
      var n := RunFollowsSource(g, m, ss, junk, inp, 1);
      assert Steps(g, m, n, IrStart(junk, inp)).Faulted?;
    }
  }
}
