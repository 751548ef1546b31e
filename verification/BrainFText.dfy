/** BrainF texts run as they stand: a machine with a position in the text, which knows neither
    statements nor a parser.  It steps over one character at a time; with bounds checks over
    one run of moves at a time, because the head is tested only at the end of a run. */
module BrainFText {
  import opened BrainFSource

  // ----- The machine -----

  datatype TextState = At(pos: nat, st: Core) | Ended(st: Core) | OffTape(st: Core) | BadAccess(st: Core)

  predicate IsMove(c: char) { c == '<' || c == '>' }

  predicate IsComment(c: char) { c !in "+-<>,.[]" }

  /** Just behind the ']' that closes a bracket opened before pos, depth brackets further in. */
  function Behind(text: string, pos: nat, depth: nat): nat
    decreases |text| - pos
  {
    if pos >= |text| then |text|
    else if text[pos] == '[' then Behind(text, pos + 1, depth + 1)
    else if text[pos] == ']' then if depth == 0 then pos + 1 else Behind(text, pos + 1, depth - 1)
    else Behind(text, pos + 1, depth)
  }

  /** The '[' that is closed at pos or behind it. */
  function Opening(text: string, pos: nat, depth: nat): nat
    requires pos <= |text|
  {
    if pos == 0 then 0
    else if text[pos - 1] == ']' then Opening(text, pos - 1, depth + 1)
    else if text[pos - 1] == '[' then if depth == 0 then pos - 1 else Opening(text, pos - 1, depth - 1)
    else Opening(text, pos - 1, depth)
  }

  /** Where a run of moves ends, comments included, and how far it moves. */
  function RunEnd(text: string, pos: nat): (e: nat)
    requires pos <= |text|
    ensures pos <= e <= |text|
    decreases |text| - pos
  {
    if pos < |text| && (IsMove(text[pos]) || IsComment(text[pos])) then RunEnd(text, pos + 1) else pos
  }

  function RunSum(text: string, pos: nat): int
    requires pos <= |text|
    decreases |text| - pos
  {
    if pos == |text| then 0
    else if text[pos] == '>' then 1 + RunSum(text, pos + 1)
    else if text[pos] == '<' then RunSum(text, pos + 1) - 1
    else if IsComment(text[pos]) then RunSum(text, pos + 1)
    else 0
  }

  predicate Accessible(m: Machine, a: int) { m.strict ==> m.base <= a < m.base + m.size }

  /** The byte under the head. */
  function Under(st: Core): Byte { if st.head in st.io.tape then st.io.tape[st.head] else 0 }

  function Stored(m: Machine, pos: nat, st: Core, b: Byte): TextState {
    if Accessible(m, st.head) then At(pos + 1, Core(st.head, Io(st.io.tape[st.head := b], st.io.inp, st.io.out)))
    else BadAccess(st)
  }

  function ReadByte(m: Machine, pos: nat, st: Core): TextState {
    var inp := st.io.inp;
    if inp == [] then Stored(m, pos, st, 255)
    else Stored(m, pos, Core(st.head, Io(st.io.tape, inp[1..], st.io.out)), inp[0])
  }

  function WriteByte(m: Machine, pos: nat, st: Core): TextState {
    if Accessible(m, st.head) then At(pos + 1, Core(st.head, Io(st.io.tape, st.io.inp, st.io.out + [Out(Under(st))])))
    else BadAccess(st)
  }

  function Moved(m: Machine, text: string, pos: nat, st: Core): TextState
    requires pos < |text|
  {
    if !m.checked then At(pos + 1, Core(if text[pos] == '>' then st.head + 1 else st.head - 1, st.io))
    else
      var head := st.head + RunSum(text, pos);
      if m.base <= head < m.base + m.size then At(RunEnd(text, pos), Core(head, st.io))
      else OffTape(Core(head, Io(st.io.tape, st.io.inp, st.io.out + [ErrorMessage])))
  }

  function EnterLoop(m: Machine, text: string, pos: nat, st: Core): TextState {
    if !Accessible(m, st.head) then BadAccess(st)
    else if Under(st) == 0 then At(Behind(text, pos + 1, 0), st)
    else At(pos + 1, st)
  }

  function TextStep(m: Machine, text: string, s: TextState): TextState {
    if !s.At? then s
    else if s.pos >= |text| then Ended(s.st)
    else
      match text[s.pos]
      case '+' => Stored(m, s.pos, s.st, (Under(s.st) + 1) % 256)
      case '-' => Stored(m, s.pos, s.st, (Under(s.st) + 255) % 256)
      case ',' => ReadByte(m, s.pos, s.st)
      case '.' => WriteByte(m, s.pos, s.st)
      case '<' => Moved(m, text, s.pos, s.st)
      case '>' => Moved(m, text, s.pos, s.st)
      case '[' => EnterLoop(m, text, s.pos, s.st)
      case ']' => At(Opening(text, s.pos, 0), s.st)
      case _ => At(s.pos + 1, s.st)
  }

  function TextRun(m: Machine, text: string, n: nat, s: TextState): TextState {
    if n == 0 then s else TextRun(m, text, n - 1, TextStep(m, text, s))
  }

  lemma {:induction false} TextRunAdd(m: Machine, text: string, n: nat, k: nat, s: TextState)
    ensures TextRun(m, text, n + k, s) == TextRun(m, text, k, TextRun(m, text, n, s))
  {
    if n > 0 {
      TextRunAdd(m, text, n - 1, k, TextStep(m, text, s));
    }
  }

  lemma {:induction false} TextStays(m: Machine, text: string, n: nat, s: TextState)
    requires !s.At?
    ensures TextRun(m, text, n, s) == s
  {
    if n > 0 {
      TextStays(m, text, n - 1, s);
    }
  }

  // ----- Brackets found by counting are those found by parsing -----

  predicate Bracketed(text: string, p: nat, q: nat, depth: nat)
    requires p <= q < |text|
  {
    && Behind(text, p, depth) == (if depth == 0 then q + 1 else Behind(text, q + 1, depth - 1))
    && Opening(text, q, depth) == Opening(text, p, depth)
  }

  /** q is the ']' the text from p on stops at. */
  ghost predicate Closes(text: string, p: nat, q: int) {
    p <= q < |text| && text[q] == ']' && forall depth: nat :: Bracketed(text, p, q, depth)
  }

  lemma ClosesHere(text: string, p: nat)
    requires p < |text| && text[p] == ']'
    ensures Closes(text, p, p)
  {
  }

  lemma ClosesBefore(text: string, p: nat, q: int)
    requires p < |text| && text[p] != ']' && text[p] != '[' && Closes(text, p + 1, q)
    ensures Closes(text, p, q)
  {
    forall depth: nat ensures Bracketed(text, p, q, depth) {
      assert Bracketed(text, p + 1, q, depth);
    }
  }

  lemma ClosesAround(text: string, p: nat, q: nat, r: int)
    requires p < |text| && text[p] == '[' && Closes(text, p + 1, q) && Closes(text, q + 1, r)
    ensures Closes(text, p, r)
  {
    forall depth: nat ensures Bracketed(text, p, r, depth) {
      assert Bracketed(text, p + 1, q, depth + 1) && Bracketed(text, q + 1, r, depth);
    }
  }

  /** The parse from p on that stops at q, behind which the tail is. */
  predicate StopsAt(text: string, p: nat, q: int)
    requires p <= |text|
  {
    p <= q < |text| && ParseSeq(text[p..]).Closed? && ParseSeq(text[p..]).tail == text[q + 1..]
  }

  lemma StopsHere(text: string, p: nat)
    requires p < |text| && text[p] == ']'
    ensures StopsAt(text, p, p)
  {
  }

  lemma StopsBefore(text: string, p: nat)
    requires p < |text| && text[p] != ']' && text[p] != '[' && ParseSeq(text[p..]).Closed?
    ensures ParseSeq(text[p + 1..]).Closed?
    ensures forall q :: StopsAt(text, p + 1, q) ==> StopsAt(text, p, q)
  {
    assert text[p..][1..] == text[p + 1..];
  }

  lemma StopsInside(text: string, p: nat)
    requires p < |text| && text[p] == '[' && ParseSeq(text[p..]).Closed?
    ensures ParseSeq(text[p + 1..]).Closed?
  {
    assert text[p..][1..] == text[p + 1..];
  }

  lemma StopsAround(text: string, p: nat, q: nat)
    requires p < |text| && text[p] == '[' && ParseSeq(text[p..]).Closed? && StopsAt(text, p + 1, q)
    ensures ParseSeq(text[q + 1..]).Closed?
    ensures forall r :: StopsAt(text, q + 1, r) ==> StopsAt(text, p, r)
  {
    assert text[p..][1..] == text[p + 1..];
  }

  lemma {:induction false} StopCloses(text: string, p: nat) returns (q: nat)
    requires p <= |text| && ParseSeq(text[p..]).Closed?
    ensures StopsAt(text, p, q) && Closes(text, p, q)
    decreases |text| - p
  {
    assert p < |text|;
    hide Closes, ParseSeq;
    if text[p] == ']' {
      q := p;
      StopsHere(text, p);
      ClosesHere(text, p);
    } else if text[p] == '[' {
      StopsInside(text, p);
      var r := StopCloses(text, p + 1);
      StopsAround(text, p, r);
      q := StopCloses(text, r + 1);
      ClosesAround(text, p, r, q);
    } else {
      StopsBefore(text, p);
      q := StopCloses(text, p + 1);
      ClosesBefore(text, p, q);
    }
  }

  lemma ClosesInText(text: string, p: nat, q: int)
    requires Closes(text, p, q)
    ensures p <= q < |text| && text[q] == ']' && Behind(text, p, 0) == q + 1 && Opening(text, q, 0) == Opening(text, p, 0)
  {
    assert Bracketed(text, p, q, 0);
  }

  // ----- The machine follows the statements of the text -----

  /** The merged statements from position p on. */
  function StmtsFrom(text: string, p: nat): seq<Stmt>
    requires p <= |text|
  {
    match MParse(text[p..])
    case Closed(stmts, _) => stmts
    case AtEof(stmts) => stmts
    case Unclosed => []
  }

  /** Where they end: at an unmatched ']' or at the end of the text. */
  function StopOf(text: string, p: nat): int
    requires p <= |text|
  {
    match MParse(text[p..])
    case Closed(_, tail) => |text| - |tail| - 1
    case _ => |text|
  }

  /** After n steps the machine is where the statements lead. */
  predicate Follows(m: Machine, text: string, pos: nat, st: Core, n: nat, stop: int, o: Outcome, fuel: nat) {
    var s := TextRun(m, text, n, At(pos, st));
    match o
    case Done(st', left) => stop >= 0 && s == At(stop, st') && n + left >= fuel
    case OutOfFuel(st') => s.At? && s.st == st' && n >= fuel
    case LeftTape(st') => s == OffTape(st')
    case Fault(st') => s == BadAccess(st')
  }

  lemma FollowsStep(m: Machine, text: string, pos: nat, st: Core, pos': nat, st': Core, n: nat, stop: int, o: Outcome, fuel: nat)
    requires TextStep(m, text, At(pos, st)) == At(pos', st') && Follows(m, text, pos', st', n, stop, o, fuel)
    ensures Follows(m, text, pos, st, n + 1, stop, o, fuel)
    ensures Follows(m, text, pos, st, n + 1, stop, o, fuel + 1)
  {
    hide TextStep;
  }

  lemma FollowsThen(m: Machine, text: string, pos: nat, st: Core, n: nat, mid: nat, st': Core, left: nat, k: nat, stop: int, o: Outcome, fuel: nat)
    requires Follows(m, text, pos, st, n, mid, Done(st', left), fuel) && Follows(m, text, mid, st', k, stop, o, left)
    ensures Follows(m, text, pos, st, n + k, stop, o, fuel)
  {
    hide TextStep;
    TextRunAdd(m, text, n, k, At(pos, st));
  }

  lemma FollowsElsewhere(m: Machine, text: string, pos: nat, st: Core, n: nat, stop: int, stop': int, o: Outcome, fuel: nat)
    requires Follows(m, text, pos, st, n, stop, o, fuel) && !o.Done?
    ensures Follows(m, text, pos, st, n, stop', o, fuel)
  {
  }

  /** One statement for one character, other than a checked move. */
  lemma CharSim(m: Machine, text: string, p: nat, st: Core, fuel: nat)
    requires p < |text| && text[p] in "+-<>,." && (m.checked ==> !IsMove(text[p]))
    ensures |UnitOf(text[p])| == 1
    ensures var s, o := TextStep(m, text, At(p, st)), ExecStmt(m, UnitOf(text[p])[0], st, fuel);
      match o case Done(st', left) => s == At(p + 1, st') && left == fuel case Fault(st') => s == BadAccess(st') case _ => false
  {
  }

  lemma FromEnd(text: string)
    ensures !MParse(text[|text|..]).Unclosed? && StmtsFrom(text, |text|) == [] && StopOf(text, |text|) == |text|
  {
  }

  lemma FromClose(text: string, p: nat)
    requires p < |text| && text[p] == ']'
    ensures !MParse(text[p..]).Unclosed? && StmtsFrom(text, p) == [] && StopOf(text, p) == p
  {
  }

  lemma FromComment(text: string, p: nat)
    requires p < |text| && IsComment(text[p]) && !MParse(text[p..]).Unclosed?
    ensures !MParse(text[p + 1..]).Unclosed? && StmtsFrom(text, p) == StmtsFrom(text, p + 1) && StopOf(text, p) == StopOf(text, p + 1)
  {
    MParseStep(text[p..]);
    assert text[p..][1..] == text[p + 1..];
  }

  lemma FromChar(text: string, p: nat)
    requires p < |text| && text[p] in "+-<>,." && !MParse(text[p..]).Unclosed?
    ensures |UnitOf(text[p])| == 1 && !MParse(text[p + 1..]).Unclosed?
    ensures StmtsFrom(text, p) == MCons(UnitOf(text[p])[0], StmtsFrom(text, p + 1)) && StopOf(text, p) == StopOf(text, p + 1)
  {
    MParseStep(text[p..]);
    assert text[p..][1..] == text[p + 1..];
  }

  lemma FromBracket(text: string, p: nat) returns (q: nat)
    requires p < |text| && text[p] == '[' && !MParse(text[p..]).Unclosed?
    ensures p + 1 <= q < |text| && text[q] == ']' && Behind(text, p + 1, 0) == q + 1 && Opening(text, q, 0) == p
    ensures !MParse(text[p + 1..]).Unclosed? && StopOf(text, p + 1) == q
    ensures !MParse(text[q + 1..]).Unclosed? && StopOf(text, p) == StopOf(text, q + 1)
    ensures StmtsFrom(text, p) == [Loop(StmtsFrom(text, p + 1))] + StmtsFrom(text, q + 1)
  {
    MParseStep(text[p..]);
    assert text[p..][1..] == text[p + 1..];
    q := StopCloses(text, p + 1);
    ClosesInText(text, p + 1, q);
  }

  predicate HasMove(text: string, p: nat)
    requires p <= |text|
    decreases |text| - p
  {
    p < |text| && (IsMove(text[p]) || (IsComment(text[p]) && HasMove(text, p + 1)))
  }

  /** From p on there is one merged move by the sum of the run, if it has a move at all, and then
      what follows the run, which does not start with another one. */
  predicate RunIs(text: string, p: nat)
    requires p <= |text|
  {
    && var e := RunEnd(text, p);
    && !MParse(text[p..]).Unclosed? && !MParse(text[e..]).Unclosed? && StopOf(text, p) == StopOf(text, e)
    && (StmtsFrom(text, e) != [] ==> !StmtsFrom(text, e)[0].Move?)
    && StmtsFrom(text, p) == (if HasMove(text, p) then [Move(RunSum(text, p))] + StmtsFrom(text, e) else StmtsFrom(text, e))
    && (HasMove(text, p) || RunSum(text, p) == 0)
  }

  lemma RunAtMove(text: string, p: nat)
    requires p < |text| && IsMove(text[p]) && !MParse(text[p..]).Unclosed? && RunIs(text, p + 1)
    ensures RunIs(text, p)
  {
    hide MParse, StmtsFrom, StopOf;
    FromChar(text, p);
    var rest, after, e := StmtsFrom(text, p + 1), StmtsFrom(text, RunEnd(text, p)), RunEnd(text, p);
    var d := if text[p] == '>' then 1 else -1;
    assert RunSum(text, p) == d + RunSum(text, p + 1) && e == RunEnd(text, p + 1);
    if HasMove(text, p + 1) {
      assert rest[1..] == after;
    } else {
      assert RunSum(text, p + 1) == 0 && rest == after;
    }
  }

  lemma RunAtComment(text: string, p: nat)
    requires p < |text| && IsComment(text[p]) && !MParse(text[p..]).Unclosed? && RunIs(text, p + 1)
    ensures RunIs(text, p)
  {
    hide MParse, StmtsFrom, StopOf;
    FromComment(text, p);
  }

  lemma NoRun(text: string, p: nat)
    requires p <= |text| && !MParse(text[p..]).Unclosed? && (p < |text| ==> !IsMove(text[p]) && !IsComment(text[p]))
    requires StmtsFrom(text, p) != [] ==> !StmtsFrom(text, p)[0].Move?
    ensures RunIs(text, p)
  {
    hide MParse, StmtsFrom, StopOf;
  }

  /** A run of moves is one merged move by its sum. */
  lemma {:induction false} FromRun(text: string, p: nat)
    requires p <= |text| && !MParse(text[p..]).Unclosed?
    ensures RunIs(text, p)
    decreases |text| - p
  {
    hide MParse, StmtsFrom, RunIs, StopOf;
    if p == |text| {
      FromEnd(text);
      NoRun(text, p);
    } else if IsMove(text[p]) {
      FromChar(text, p);
      FromRun(text, p + 1);
      RunAtMove(text, p);
    } else if IsComment(text[p]) {
      FromComment(text, p);
      FromRun(text, p + 1);
      RunAtComment(text, p);
    } else {
      if text[p] == ']' {
        FromClose(text, p);
      } else if text[p] == '[' {
        var q := FromBracket(text, p);
      } else {
        FromChar(text, p);
      }
      NoRun(text, p);
    }
  }

  /** The machine goes where the statements go, in at least as many steps as they take loop tests. */
  lemma {:induction false} TextSim(m: Machine, text: string, p: nat, st: Core, fuel: nat) returns (n: nat)
    requires p <= |text| && !MParse(text[p..]).Unclosed?
    ensures Follows(m, text, p, st, n, StopOf(text, p), Exec(m, StmtsFrom(text, p), st, fuel), fuel)
    decreases fuel, |text| - p, 1
  {
    hide MParse, StmtsFrom, StopOf, TextStep, MCons, ExecStmt, UnitOf;
    if p == |text| {
      n := 0;
      FromEnd(text);
    } else if text[p] == ']' {
      n := 0;
      FromClose(text, p);
    } else if text[p] == '[' {
      n := BracketSim(m, text, p, st, fuel);
    } else if IsComment(text[p]) {
      FromComment(text, p);
      n := TextSim(m, text, p + 1, st, fuel);
      StepOverComment(m, text, p, st);
      FollowsStep(m, text, p, st, p + 1, st, n, StopOf(text, p), Exec(m, StmtsFrom(text, p), st, fuel), fuel);
      n := n + 1;
    } else if m.checked && IsMove(text[p]) {
      n := CheckedMoveSim(m, text, p, st, fuel);
    } else {
      n := UnitSim(m, text, p, st, fuel);
    }
  }

  lemma StepOverComment(m: Machine, text: string, p: nat, st: Core)
    requires p < |text| && IsComment(text[p])
    ensures TextStep(m, text, At(p, st)) == At(p + 1, st)
  {
  }

  lemma StopsInOne(m: Machine, text: string, p: nat, st: Core, stop: int, o: Outcome, fuel: nat)
    requires match o case Fault(st') => TextStep(m, text, At(p, st)) == BadAccess(st')
      case LeftTape(st') => TextStep(m, text, At(p, st)) == OffTape(st') case _ => false
    ensures Follows(m, text, p, st, 1, stop, o, fuel)
  {
    assert TextRun(m, text, 1, At(p, st)) == TextRun(m, text, 0, TextStep(m, text, At(p, st)));
  }

  lemma {:induction false} UnitSim(m: Machine, text: string, p: nat, st: Core, fuel: nat) returns (n: nat)
    requires p < |text| && !MParse(text[p..]).Unclosed? && text[p] in "+-<>,." && (m.checked ==> !IsMove(text[p]))
    ensures Follows(m, text, p, st, n, StopOf(text, p), Exec(m, StmtsFrom(text, p), st, fuel), fuel)
    decreases fuel, |text| - p, 0
  {
    hide MParse, StmtsFrom, StopOf, TextStep, MCons, ExecStmt;
    FromChar(text, p);
    var s, rest := UnitOf(text[p])[0], StmtsFrom(text, p + 1);
    assert m.checked ==> !s.Move?;
    hide UnitOf;
    MConsExec(m, s, rest, st, fuel);
    ExecFirst(m, s, rest, st, fuel);
    CharSim(m, text, p, st, fuel);
    match ExecStmt(m, s, st, fuel)
    case Done(st', left) =>
      n := TextSim(m, text, p + 1, st', fuel);
      FollowsStep(m, text, p, st, p + 1, st', n, StopOf(text, p), Exec(m, rest, st', fuel), fuel);
      n := n + 1;
    case Fault(_) =>
      n := 1;
      StopsInOne(m, text, p, st, StopOf(text, p), ExecStmt(m, s, st, fuel), fuel);
  }

  /** The head is tested where a run of moves ends. */
  lemma {:induction false} CheckedMoveSim(m: Machine, text: string, p: nat, st: Core, fuel: nat) returns (n: nat)
    requires p < |text| && !MParse(text[p..]).Unclosed? && m.checked && IsMove(text[p])
    ensures Follows(m, text, p, st, n, StopOf(text, p), Exec(m, StmtsFrom(text, p), st, fuel), fuel)
    decreases fuel, |text| - p, 0
  {
    hide MParse, StmtsFrom, StopOf;
    var e, d := RunEnd(text, p), RunSum(text, p);
    FromRun(text, p);
    var rest := StmtsFrom(text, e);
    ExecFirst(m, Move(d), rest, st, fuel);
    var o := ExecStmt(m, Move(d), st, fuel);
    if o.Done? {
      n := TextSim(m, text, e, o.st, fuel);
      FollowsStep(m, text, p, st, e, o.st, n, StopOf(text, p), Exec(m, rest, o.st, fuel), fuel);
      n := n + 1;
    } else {
      n := 1;
      StopsInOne(m, text, p, st, StopOf(text, p), o, fuel);
    }
  }

  lemma {:induction false} BracketSim(m: Machine, text: string, p: nat, st: Core, fuel: nat) returns (n: nat)
    requires p < |text| && !MParse(text[p..]).Unclosed? && text[p] == '['
    ensures Follows(m, text, p, st, n, StopOf(text, p), Exec(m, StmtsFrom(text, p), st, fuel), fuel)
    decreases fuel, |text| - p, 0
  {
    hide MParse, StmtsFrom, StopOf, TextStep, ExecStmt;
    var q := FromBracket(text, p);
    var s, rest := Loop(StmtsFrom(text, p + 1)), StmtsFrom(text, q + 1);
    ExecFirst(m, s, rest, st, fuel);
    n := LoopText(m, text, p, q, st, fuel);
    var o := ExecStmt(m, s, st, fuel);
    if o.Done? {
      var k := TextSim(m, text, q + 1, o.st, o.fuel);
      FollowsThen(m, text, p, st, n, q + 1, o.st, o.fuel, k, StopOf(text, p), Exec(m, rest, o.st, o.fuel), fuel);
      n := n + k;
    }
  }

  /** A loop, entered at its '['. */
  lemma {:induction false} LoopText(m: Machine, text: string, p: nat, q: nat, st: Core, fuel: nat) returns (n: nat)
    requires p + 1 <= q < |text| && text[p] == '[' && text[q] == ']'
    requires Behind(text, p + 1, 0) == q + 1 && Opening(text, q, 0) == p
    requires !MParse(text[p + 1..]).Unclosed? && StopOf(text, p + 1) == q
    ensures Follows(m, text, p, st, n, q + 1, ExecStmt(m, Loop(StmtsFrom(text, p + 1)), st, fuel), fuel)
    decreases fuel, |text| - p - 1, 2
  {
    hide MParse, StmtsFrom, StopOf, Exec;
    var s := Loop(StmtsFrom(text, p + 1));
    var o := ExecStmt(m, s, st, fuel);
    if fuel == 0 {
      n := 0;
    } else if !Accessible(m, st.head) {
      n := 1;
      StopsInOne(m, text, p, st, q + 1, o, fuel);
    } else if Under(st) == 0 {
      n := 1;
      FollowsStep(m, text, p, st, q + 1, st, 0, q + 1, o, fuel - 1);
    } else {
      n := AroundOnce(m, text, p, q, st, fuel);
    }
  }

  lemma {:induction false} AroundOnce(m: Machine, text: string, p: nat, q: nat, st: Core, fuel: nat) returns (n: nat)
    requires p + 1 <= q < |text| && text[p] == '[' && text[q] == ']'
    requires Behind(text, p + 1, 0) == q + 1 && Opening(text, q, 0) == p
    requires !MParse(text[p + 1..]).Unclosed? && StopOf(text, p + 1) == q
    requires fuel > 0 && Accessible(m, st.head) && Under(st) != 0
    ensures Follows(m, text, p, st, n, q + 1, ExecStmt(m, Loop(StmtsFrom(text, p + 1)), st, fuel), fuel)
    decreases fuel, |text| - p - 1, 1
  {
    hide MParse, StmtsFrom, StopOf, Exec, ExecStmt, TextStep, Follows;
    var body := StmtsFrom(text, p + 1);
    var whole, o := ExecStmt(m, Loop(body), st, fuel), Exec(m, body, st, fuel - 1);
    LoopOnce(m, body, st, fuel);
    n := TextSim(m, text, p + 1, st, fuel - 1);
    if !o.Done? {
      FollowsElsewhere(m, text, p + 1, st, n, q, q + 1, o, fuel - 1);
    } else {
      var k := LoopText(m, text, p, q, o.st, o.fuel);
      GoesBack(m, text, p, q, o.st);
      FollowsStep(m, text, q, o.st, p, o.st, k, q + 1, whole, o.fuel);
      FollowsThen(m, text, p + 1, st, n, q, o.st, o.fuel, k + 1, q + 1, whole, fuel - 1);
      n := n + k + 1;
    }
    EntersLoop(m, text, p, st);
    FollowsStep(m, text, p, st, p + 1, st, n, q + 1, whole, fuel - 1);
    n := n + 1;
  }

  lemma LoopOnce(m: Machine, body: seq<Stmt>, st: Core, fuel: nat)
    requires fuel > 0 && Accessible(m, st.head) && Under(st) != 0
    ensures var o := Exec(m, body, st, fuel - 1);
      ExecStmt(m, Loop(body), st, fuel) == if o.Done? then ExecStmt(m, Loop(body), o.st, o.fuel) else o
  {
    hide Exec;
  }

  lemma EntersLoop(m: Machine, text: string, p: nat, st: Core)
    requires p < |text| && text[p] == '[' && Accessible(m, st.head) && Under(st) != 0
    ensures TextStep(m, text, At(p, st)) == At(p + 1, st)
  {
  }

  lemma GoesBack(m: Machine, text: string, p: nat, q: nat, st: Core)
    requires q < |text| && text[q] == ']' && Opening(text, q, 0) == p
    ensures TextStep(m, text, At(q, st)) == At(p, st)
  {
  }

  // ----- The two ways to run a text agree -----

  /** The statements stop in the state the machine stops in. */
  predicate StopsAlike(o: Outcome, t: TextState) {
    match o
    case Done(st, _) => t == Ended(st)
    case LeftTape(st) => t == OffTape(st)
    case Fault(st) => t == BadAccess(st)
    case OutOfFuel(_) => false
  }

  /** The statements have run out of fuel in a state the machine has come by. */
  predicate RunsOn(o: Outcome, t: TextState) { o.OutOfFuel? && t.At? && t.st == o.st }

  lemma TextFollows(m: Machine, text: string, st: Core, fuel: nat) returns (n: nat)
    requires ParseSeq(text).AtEof?
    ensures var o, t := Exec(m, MParse(text).stmts, st, fuel), TextRun(m, text, n, At(0, st));
      if o.OutOfFuel? then RunsOn(o, t) && n >= fuel else StopsAlike(o, t)
  {
    assert text[0..] == text;
    n := TextSim(m, text, 0, st, fuel);
    var o := Exec(m, MParse(text).stmts, st, fuel);
    if o.Done? {
      TextRunAdd(m, text, n, 1, At(0, st));
      assert TextRun(m, text, 1, At(|text|, o.st)) == TextRun(m, text, 0, Ended(o.st));
      n := n + 1;
    }
  }

  /** The machine stops in a state, be it at the end of the text, off the tape or at a bad
      access, if and only if the merged statements of the text do. */
  lemma TextMeetsStmts(m: Machine, text: string, st: Core, t: TextState)
    requires ParseSeq(text).AtEof? && !t.At?
    ensures (exists n: nat :: TextRun(m, text, n, At(0, st)) == t)
       <==> (exists fuel: nat :: StopsAlike(Exec(m, MParse(text).stmts, st, fuel), t))
  {
    assert MParse(text).AtEof?;
    hide MParse, Exec, TextStep;
    if fuel: nat :| StopsAlike(Exec(m, MParse(text).stmts, st, fuel), t) {
      var n := TextFollows(m, text, st, fuel);
      assert TextRun(m, text, n, At(0, st)) == t;
    }
    if n: nat :| TextRun(m, text, n, At(0, st)) == t {
      StopComesFromStmts(m, text, st, n);
    }
  }

  /** A machine that has stopped after n steps is where the statements stop within n loop tests. */
  lemma StopComesFromStmts(m: Machine, text: string, st: Core, n: nat)
    requires ParseSeq(text).AtEof? && !TextRun(m, text, n, At(0, st)).At?
    ensures StopsAlike(Exec(m, MParse(text).stmts, st, n), TextRun(m, text, n, At(0, st)))
  {
    hide MParse, Exec, TextStep, TextRun;
    var k := TextFollows(m, text, st, n);
    if k >= n {
      TextRunAdd(m, text, n, k - n, At(0, st));
      TextStays(m, text, k - n, TextRun(m, text, n, At(0, st)));
    } else {
      TextRunAdd(m, text, k, n - k, At(0, st));
      TextStays(m, text, n - k, TextRun(m, text, k, At(0, st)));
    }
  }

  /** Without bounds checks the same holds of the statements no run of which is merged. */
  lemma UncheckedTextMeetsStmts(m: Machine, text: string, st: Core, t: TextState)
    requires ParseSeq(text).AtEof? && !t.At? && !m.checked
    ensures (exists n: nat :: TextRun(m, text, n, At(0, st)) == t)
       <==> (exists fuel: nat :: StopsAlike(Exec(m, ParseSeq(text).stmts, st, fuel), t))
  {
    TextMeetsStmts(m, text, st, t);
    var ss := ParseSeq(text).stmts;
    assert MParse(text).stmts == Merge(ss);
    assert ParseSeq(text).stmts == ss;
    hide Exec, TextRun, ParseSeq, MParse, Merge;
    if fuel: nat :| StopsAlike(Exec(m, ss, st, fuel), t) {
      MergeExec(m, ss, st, fuel);
      assert StopsAlike(Exec(m, MParse(text).stmts, st, fuel), t);
    }
    if fuel: nat :| StopsAlike(Exec(m, MParse(text).stmts, st, fuel), t) {
      MergeExec(m, ss, st, fuel);
      assert StopsAlike(Exec(m, ss, st, fuel), t);
    }
  }

  /** The head starts in the middle of a tape of zeros; elsewhere memory is as it was. */
  function TextStart(m: Machine, junk: map<int, Byte>, inp: seq<Byte>): Core {
    Core(m.base + m.size / 2, Io(map a | a in junk && (a < m.base || a >= m.base + m.size) :: junk[a], inp, []))
  }
}
