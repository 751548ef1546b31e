/** The BrainF language: a reference parser, the run-length merge the compiler performs
    on the fly, and a fuelled semantics in which only loop tests consume fuel. */
module BrainFSource {

  type Byte = b: int | 0 <= b < 256

  datatype Stmt = Read | Write | Move(d: int) | Change(d: int) | Loop(body: seq<Stmt>)

  // ----- Reference parser -----

  /** Parsing stops at an unmatched ']' (Closed), at the end of the text (AtEof), or fails
      because some '[' is never closed (Unclosed). */
  datatype Parse = Closed(stmts: seq<Stmt>, tail: string) | AtEof(stmts: seq<Stmt>) | Unclosed

  /** The statement a command character stands for; every other character is a comment. */
  function UnitOf(c: char): seq<Stmt> {
    match c
    case ',' => [Read]
    case '.' => [Write]
    case '-' => [Change(-1)]
    case '+' => [Change(1)]
    case '<' => [Move(-1)]
    case '>' => [Move(1)]
    case _ => []
  }

  function PApp(ss: seq<Stmt>, p: Parse): Parse {
    match p
    case Closed(ts, tail) => Closed(ss + ts, tail)
    case AtEof(ts) => AtEof(ss + ts)
    case Unclosed => Unclosed
  }

  function ParseSeq(s: string): (p: Parse)
    ensures p.Closed? ==> |p.tail| < |s|
    decreases |s|
  {
    if s == "" then AtEof([])
    else if s[0] == ']' then Closed([], s[1..])
    else if s[0] == '[' then
      match ParseSeq(s[1..])
      case Closed(body, tail) => PApp([Loop(body)], ParseSeq(tail))
      case _ => Unclosed
    else PApp(UnitOf(s[0]), ParseSeq(s[1..]))
  }

  /** Bracket balance by counting: the depth never goes negative and ends at zero. */
  predicate Balanced(s: string, depth: nat) {
    if s == "" then depth == 0
    else if s[0] == '[' then Balanced(s[1..], depth + 1)
    else if s[0] == ']' then depth > 0 && Balanced(s[1..], depth - 1)
    else Balanced(s[1..], depth)
  }

  lemma {:induction false} ParseMeetsDepth(s: string, depth: nat)
    ensures Balanced(s, depth) <==>
      if depth == 0 then ParseSeq(s).AtEof?
      else ParseSeq(s).Closed? && Balanced(ParseSeq(s).tail, depth - 1)
    decreases |s|
  {
    if s == "" {
    } else if s[0] == ']' {
    } else if s[0] == '[' {
      ParseMeetsDepth(s[1..], depth + 1);
      if ParseSeq(s[1..]).Closed? {
        ParseMeetsDepth(ParseSeq(s[1..]).tail, depth);
      }
    } else {
      ParseMeetsDepth(s[1..], depth);
    }
  }

  /** Some prefix of the text closes more brackets than are open. */
  predicate Overcloses(s: string, depth: nat) {
    if s == "" then false
    else if s[0] == '[' then Overcloses(s[1..], depth + 1)
    else if s[0] == ']' then depth == 0 || Overcloses(s[1..], depth - 1)
    else Overcloses(s[1..], depth)
  }

  /** An unbalanced text is refused for its first ']' too many if it has one, and otherwise
      for a '[' that is never closed. */
  lemma {:induction false} ClosedMeetsDepth(s: string, depth: nat)
    ensures Overcloses(s, depth) <==>
      ParseSeq(s).Closed? && (depth == 0 || Overcloses(ParseSeq(s).tail, depth - 1))
    decreases |s|
  {
    if s == "" {
    } else if s[0] == ']' {
    } else if s[0] == '[' {
      ClosedMeetsDepth(s[1..], depth + 1);
      if ParseSeq(s[1..]).Closed? {
        ClosedMeetsDepth(ParseSeq(s[1..]).tail, depth);
      }
    } else {
      ClosedMeetsDepth(s[1..], depth);
    }
  }

  // ----- Run-length merging -----

  /** Put one statement in front of a merged list, absorbing a run of the same kind. */
  function MCons(s: Stmt, ss: seq<Stmt>): (r: seq<Stmt>)
    ensures |r| > 0
  {
    if ss != [] && s.Change? && ss[0].Change? then [Change(s.d + ss[0].d)] + ss[1..]
    else if ss != [] && s.Move? && ss[0].Move? then [Move(s.d + ss[0].d)] + ss[1..]
    else [s] + ss
  }

  function MergeStmt(s: Stmt): Stmt
    decreases s, 1
  {
    if s.Loop? then Loop(Merge(s.body)) else s
  }

  function Merge(ss: seq<Stmt>): seq<Stmt>
    decreases ss, 0
  {
    if ss == [] then [] else MCons(MergeStmt(ss[0]), Merge(ss[1..]))
  }

  function PCons(s: Stmt, p: Parse): Parse {
    match p
    case Closed(ts, tail) => Closed(MCons(s, ts), tail)
    case AtEof(ts) => AtEof(MCons(s, ts))
    case Unclosed => Unclosed
  }

  /** The parse of a text with every run merged: what the compiler must emit code for. */
  function MParse(s: string): (p: Parse)
    ensures p.Closed? ==> |p.tail| < |s|
  {
    match ParseSeq(s)
    case Closed(ts, tail) => Closed(Merge(ts), tail)
    case AtEof(ts) => AtEof(Merge(ts))
    case Unclosed => Unclosed
  }

  /** What a '[' amounts to, given the merged parse of the text after it. */
  function LoopParse(p: Parse): Parse {
    match p
    case Closed(body, tail) => PCons(Loop(body), MParse(tail))
    case _ => Unclosed
  }

  lemma MergeFirst(s: Stmt, ss: seq<Stmt>)
    ensures Merge([s] + ss) == MCons(MergeStmt(s), Merge(ss))
  {
    assert ([s] + ss)[1..] == ss;
  }

  /** The merged parse can be computed left to right, one character at a time. */
  lemma MParseStep(s: string)
    requires s != ""
    ensures s[0] == ']' ==> MParse(s) == Closed([], s[1..])
    ensures s[0] == '[' ==> MParse(s) == LoopParse(MParse(s[1..]))
    ensures s[0] !in "[]" && UnitOf(s[0]) == [] ==> MParse(s) == MParse(s[1..])
    ensures s[0] !in "[]" && UnitOf(s[0]) != [] ==> MParse(s) == PCons(UnitOf(s[0])[0], MParse(s[1..]))
  {
    if s[0] == '[' {
      match ParseSeq(s[1..])
      case Closed(body, tail) =>
        var rest := ParseSeq(tail);
        if !rest.Unclosed? {
          MergeFirst(Loop(body), rest.stmts);
        }
      case _ =>
    } else if s[0] != ']' {
      var rest := ParseSeq(s[1..]);
      if !rest.Unclosed? {
        if UnitOf(s[0]) == [] {
          assert UnitOf(s[0]) + rest.stmts == rest.stmts;
        } else {
          MergeFirst(UnitOf(s[0])[0], rest.stmts);
        }
      }
    }
  }

  // ----- Semantics -----

  /** The machine a compiled program runs on.  The tape is [base, base+size).  On a strict
      machine an access outside the tape faults; otherwise the tape is idealised as
      unbounded.  With `checked` the head is tested after every (merged) move. */
  datatype Machine = Machine(base: int, size: nat, strict: bool, checked: bool) {
    predicate InTape(a: int) { base <= a < base + size }
    predicate CanAccess(a: int) { strict ==> InTape(a) }
  }

  datatype Event = Out(b: Byte) | ErrorMessage

  datatype Io = Io(tape: map<int, Byte>, inp: seq<Byte>, out: seq<Event>) {
    function Get(a: int): Byte { if a in tape then tape[a] else 0 }
    function Set(a: int, b: Byte): Io { this.(tape := tape[a := b]) }
    /** getchar(): the next byte, or -1 at the end of the input. */
    function Char(): int { if inp == [] then -1 else inp[0] }
    function Rest(): Io { if inp == [] then this else this.(inp := inp[1..]) }
    function Emit(e: Event): Io { this.(out := out + [e]) }
  }

  datatype Core = Core(head: int, io: Io)

  datatype Outcome =
    | Done(st: Core, fuel: nat)
    | OutOfFuel(st: Core)
    | LeftTape(st: Core)
    | Fault(st: Core)

  function ExecStmt(m: Machine, s: Stmt, st: Core, fuel: nat): (o: Outcome)
    ensures o.Done? ==> o.fuel <= fuel
    decreases fuel, s, 1
  {
    match s
    case Read =>
      if m.CanAccess(st.head) then
        Done(st.(io := st.io.Rest().Set(st.head, st.io.Char() % 256)), fuel)
      else Fault(st.(io := st.io.Rest()))
    case Write =>
      if m.CanAccess(st.head) then Done(st.(io := st.io.Emit(Out(st.io.Get(st.head)))), fuel) else Fault(st)
    case Move(d) =>
      if m.checked && !m.InTape(st.head + d)
      then LeftTape(Core(st.head + d, st.io.Emit(ErrorMessage)))
      else Done(st.(head := st.head + d), fuel)
    case Change(d) =>
      if m.CanAccess(st.head) then
        Done(st.(io := st.io.Set(st.head, (st.io.Get(st.head) + d) % 256)), fuel)
      else Fault(st)
    case Loop(body) =>
      if fuel == 0 then OutOfFuel(st)
      else if !m.CanAccess(st.head) then Fault(st)
      else if st.io.Get(st.head) == 0 then Done(st, fuel - 1)
      else
        var o := Exec(m, body, st, fuel - 1);
        if o.Done? then ExecStmt(m, s, o.st, o.fuel) else o
  }

  function Exec(m: Machine, ss: seq<Stmt>, st: Core, fuel: nat): (o: Outcome)
    ensures o.Done? ==> o.fuel <= fuel
    decreases fuel, ss, 0
  {
    if ss == [] then Done(st, fuel)
    else
      var o := ExecStmt(m, ss[0], st, fuel);
      if o.Done? then Exec(m, ss[1..], o.st, o.fuel) else o
  }

  // ----- Merging preserves the meaning of unchecked programs -----

  /** Running a list is running its first statement and then the rest. */
  lemma ExecFirst(m: Machine, s: Stmt, ss: seq<Stmt>, st: Core, fuel: nat)
    ensures Exec(m, [s] + ss, st, fuel) ==
      var o := ExecStmt(m, s, st, fuel);
      if o.Done? then Exec(m, ss, o.st, o.fuel) else o
  {
    assert ([s] + ss)[1..] == ss;
  }

  lemma MConsExec(m: Machine, s: Stmt, ss: seq<Stmt>, st: Core, fuel: nat)
    requires m.checked ==> !s.Move?
    ensures Exec(m, MCons(s, ss), st, fuel) == Exec(m, [s] + ss, st, fuel)
  {
    if ss != [] && ((s.Change? && ss[0].Change?) || (s.Move? && ss[0].Move?)) {
      assert ss == [ss[0]] + ss[1..];
      ExecFirst(m, s, ss, st, fuel);
      ExecFirst(m, MCons(s, ss)[0], ss[1..], st, fuel);
      if s.Change? && m.CanAccess(st.head) {
        var v, k := st.io.Get(st.head), s.d + ss[0].d;
        assert ((v + s.d) % 256 + ss[0].d) % 256 == (v + k) % 256;
        var io1 := st.io.Set(st.head, (v + s.d) % 256);
        assert io1.tape[st.head := (v + k) % 256] == st.io.tape[st.head := (v + k) % 256];
      }
    }
  }

  lemma {:induction false} MergeStmtExec(m: Machine, s: Stmt, st: Core, fuel: nat)
    requires !m.checked
    ensures ExecStmt(m, MergeStmt(s), st, fuel) == ExecStmt(m, s, st, fuel)
    decreases fuel, s, 1
  {
    if s.Loop? && fuel > 0 && m.CanAccess(st.head) && st.io.Get(st.head) != 0 {
      MergeExec(m, s.body, st, fuel - 1);
      var o := Exec(m, s.body, st, fuel - 1);
      if o.Done? {
        MergeStmtExec(m, s, o.st, o.fuel);
      }
    }
  }

  /** Merging runs of +/- (modulo 256) and of </> (to their sum) changes nothing: same
      outcome, tape, head, input, output and fuel, on every unchecked machine. */
  lemma {:induction false} MergeExec(m: Machine, ss: seq<Stmt>, st: Core, fuel: nat)
    requires !m.checked
    ensures Exec(m, Merge(ss), st, fuel) == Exec(m, ss, st, fuel)
    decreases fuel, ss, 0
  {
    if ss != [] {
      var s, rest := MergeStmt(ss[0]), Merge(ss[1..]);
      MConsExec(m, s, rest, st, fuel);
      assert ([s] + rest)[1..] == rest;
      MergeStmtExec(m, ss[0], st, fuel);
      var o := ExecStmt(m, ss[0], st, fuel);
      if o.Done? {
        MergeExec(m, ss[1..], o.st, o.fuel);
      }
    }
  }

  // ----- With checks on, the head never leaves the tape -----

  /** No fault; the head stays accessible, and on the tape if it was there. */
  ghost predicate OnTape(m: Machine, st: Core, o: Outcome) {
    && !o.Fault?
    && (o.Done? || o.OutOfFuel? ==> m.CanAccess(o.st.head) && (m.InTape(st.head) ==> m.InTape(o.st.head)))
  }

  lemma {:induction false} CheckedStmtOnTape(m: Machine, s: Stmt, st: Core, fuel: nat)
    requires m.checked && m.CanAccess(st.head)
    ensures OnTape(m, st, ExecStmt(m, s, st, fuel))
    decreases fuel, s, 1
  {
    if s.Loop? && fuel > 0 && st.io.Get(st.head) != 0 {
      CheckedOnTape(m, s.body, st, fuel - 1);
      var o := Exec(m, s.body, st, fuel - 1);
      if o.Done? {
        CheckedStmtOnTape(m, s, o.st, o.fuel);
      }
    }
  }

  lemma {:induction false} CheckedOnTape(m: Machine, ss: seq<Stmt>, st: Core, fuel: nat)
    requires m.checked && m.CanAccess(st.head)
    ensures OnTape(m, st, Exec(m, ss, st, fuel))
    decreases fuel, ss, 0
  {
    if ss != [] {
      CheckedStmtOnTape(m, ss[0], st, fuel);
      var o := ExecStmt(m, ss[0], st, fuel);
      if o.Done? {
        CheckedOnTape(m, ss[1..], o.st, o.fuel);
      }
    }
  }
}
