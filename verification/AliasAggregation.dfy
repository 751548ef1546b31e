/** Aggregating alias analyses: exact answers, and no answer drops a bit that an execution exhibits. */
module AliasAggregation {

  // ----- The lattices -----

  datatype AliasResult = NoAlias | MayAlias | PartialAlias | MustAlias

  /** Three bits; the third one cleared means that a must-alias was found. */
  datatype ModRefInfo = ModRefInfo(mod: bool, ref: bool, noMust: bool) {
    predicate IsNoModRef() { !mod && !ref }
    predicate IsMustSet() { !noMust }
    predicate Covers(other: ModRefInfo) { (other.mod ==> mod) && (other.ref ==> ref) }
  }

  const MOD_REF := ModRefInfo(true, true, true)
  const NO_MOD_REF := ModRefInfo(false, false, true)

  function Intersect(a: ModRefInfo, b: ModRefInfo): ModRefInfo {
    ModRefInfo(a.mod && b.mod, a.ref && b.ref, a.noMust && b.noMust)
  }

  function Union(a: ModRefInfo, b: ModRefInfo): ModRefInfo {
    ModRefInfo(a.mod || b.mod, a.ref || b.ref, a.noMust || b.noMust)
  }

  function ClearMod(a: ModRefInfo): ModRefInfo { a.(mod := false) }

  function ClearRef(a: ModRefInfo): ModRefInfo { a.(ref := false) }

  /** Where a call may access memory, and whether it may write or read there. */
  datatype Behavior = Behavior(argPointees: bool, inaccessible: bool, other: bool, mod: bool, ref: bool) {
    predicate OnlyReadsMemory() { !mod }
    predicate DoesNotReadMemory() { !ref }
    predicate OnlyAccessesArgPointees() { !inaccessible && !other }
    predicate DoesAccessArgPointees() { (mod || ref) && argPointees }
    predicate OnlyAccessesInaccessibleOrArgMem() { !other }
  }

  const UNKNOWN_BEHAVIOR := Behavior(true, true, true, true, true)
  const DOES_NOT_ACCESS_MEMORY := Behavior(false, false, false, false, false)
  const ONLY_READS_MEMORY := Behavior(true, true, true, false, true)
  const DOES_NOT_READ_MEMORY := Behavior(true, true, true, true, false)
  const ONLY_ACCESSES_INACCESSIBLE_MEM := Behavior(false, true, false, true, true)

  function Both(a: Behavior, b: Behavior): Behavior {
    Behavior(a.argPointees && b.argPointees, a.inaccessible && b.inaccessible, a.other && b.other,
             a.mod && b.mod, a.ref && b.ref)
  }

  // ----- Queries -----

  datatype Location = Location(ptr: int, size: int)

  /** An argument, with the memory a call may reach through it. */
  datatype Argument = Argument(isPointer: bool, loc: Location)

  datatype Call = Call(id: int, args: seq<Argument>)

  datatype Analysis = Analysis(
    alias: (Location, Location) -> AliasResult,
    constant: Location -> bool,
    argModRef: (Call, int) -> ModRefInfo,
    behavior: Call -> Behavior,
    callLoc: (Call, Location) -> ModRefInfo,
    callCall: (Call, Call) -> ModRefInfo)

  // ----- What executions do -----

  /** How a call gets at the memory it accesses. */
  datatype Via = ThroughArg(i: int) | Hidden | Elsewhere

  datatype Access = Access(addr: int, isWrite: bool, via: Via)

  /** The bytes of each location, and the accesses each call makes in one execution. Loads from
      constant globals and accesses to the callee's own frame are not among them. */
  datatype World = World(bytes: Location -> iset<int>, accesses: Call -> iset<Access>)

  /** Memory reached through an argument is the memory of that pointer argument, and memory that
      the program cannot access is part of no location. */
  ghost predicate WorldOk(w: World) {
    && (forall c, a | a in w.accesses(c) && a.via.ThroughArg? ::
          0 <= a.via.i < |c.args| && c.args[a.via.i].isPointer && a.addr in w.bytes(c.args[a.via.i].loc))
    && (forall c, a, l | a in w.accesses(c) && a.via.Hidden? :: a.addr !in w.bytes(l))
  }

  ghost predicate Writes(w: World, c: Call, x: int) {
    exists a :: a in w.accesses(c) && a.addr == x && a.isWrite
  }

  ghost predicate Reads(w: World, c: Call, x: int) {
    exists a :: a in w.accesses(c) && a.addr == x && !a.isWrite
  }

  ghost predicate Disjoint(w: World, a: Location, b: Location) {
    forall x :: !(x in w.bytes(a) && x in w.bytes(b))
  }

  /** The bits a call exhibits on a location. */
  ghost predicate ModsLoc(w: World, c: Call, l: Location) {
    exists x :: x in w.bytes(l) && Writes(w, c, x)
  }

  ghost predicate RefsLoc(w: World, c: Call, l: Location) {
    exists x :: x in w.bytes(l) && Reads(w, c, x)
  }

  /** The bits a call exhibits towards another: it writes memory the other touches, or reads
      memory the other writes. */
  ghost predicate ModsCall(w: World, c1: Call, c2: Call) {
    exists x :: Writes(w, c1, x) && (Writes(w, c2, x) || Reads(w, c2, x))
  }

  ghost predicate RefsCall(w: World, c1: Call, c2: Call) {
    exists x :: Reads(w, c1, x) && Writes(w, c2, x)
  }

  /** What the behavior of a call allows of one access. */
  ghost predicate Allowed(b: Behavior, a: Access) {
    && (if a.isWrite then b.mod else b.ref)
    && (match a.via case ThroughArg(_) => b.argPointees case Hidden => b.inaccessible case Elsewhere => b.other)
  }

  ghost predicate AllAllowed(w: World, b: Behavior, c: Call) {
    forall a | a in w.accesses(c) :: Allowed(b, a)
  }

  ghost predicate ArgCovered(w: World, m: ModRefInfo, c: Call, i: int) {
    forall a | a in w.accesses(c) && a.via == ThroughArg(i) :: if a.isWrite then m.mod else m.ref
  }

  /** The analysis is right about this execution. */
  ghost predicate Sound(w: World, aa: Analysis) {
    && (forall a, b | aa.alias(a, b) == NoAlias :: Disjoint(w, a, b))
    && (forall c, l | aa.constant(l) :: !ModsLoc(w, c, l))
    && (forall c, i :: ArgCovered(w, aa.argModRef(c, i), c, i))
    && (forall c :: AllAllowed(w, aa.behavior(c), c))
    && (forall c, l :: aa.callLoc(c, l).Covers(ModRefInfo(ModsLoc(w, c, l), RefsLoc(w, c, l), true)))
    && (forall c, d :: aa.callCall(c, d).Covers(ModRefInfo(ModsCall(w, c, d), RefsCall(w, c, d), true)))
  }

  ghost predicate AllSound(w: World, aas: seq<Analysis>) {
    WorldOk(w) && forall k | 0 <= k < |aas| :: Sound(w, aas[k])
  }

  // ----- Asking every analysis -----

  /** The first answer that is not "may alias". */
  function AliasOf(aas: seq<Analysis>, a: Location, b: Location): AliasResult {
    if aas == [] then MayAlias
    else if aas[0].alias(a, b) != MayAlias then aas[0].alias(a, b) else AliasOf(aas[1..], a, b)
  }

  method Alias(aas: seq<Analysis>, a: Location, b: Location) returns (r: AliasResult)
    ensures r == AliasOf(aas, a, b)
  {
    assert aas[0..] == aas;
    for k := 0 to |aas|
      invariant AliasOf(aas[k..], a, b) == AliasOf(aas, a, b)
    {
      var result := aas[k].alias(a, b);
      if result != MayAlias {
        return result;
      }
      assert aas[k..][1..] == aas[k + 1..];
    }
    r := MayAlias;
  }

  ghost predicate IsConstant(aas: seq<Analysis>, l: Location) {
    exists k :: 0 <= k < |aas| && aas[k].constant(l)
  }

  method PointsToConstantMemory(aas: seq<Analysis>, l: Location) returns (r: bool)
    ensures r <==> IsConstant(aas, l)
    ensures r <==> exists k :: 0 <= k < |aas| && aas[k].constant(l)
  {
    for k := 0 to |aas|
      invariant forall j | 0 <= j < k :: !aas[j].constant(l)
    {
      if aas[k].constant(l) {
        return true;
      }
    }
    r := false;
  }

  /** The bits on which all answers agree; when none is left nothing else is remembered. */
  ghost function Meet(answers: seq<ModRefInfo>): ModRefInfo {
    if (exists k :: 0 <= k < |answers| && !answers[k].mod) && (exists k :: 0 <= k < |answers| && !answers[k].ref)
    then NO_MOD_REF
    else ModRefInfo(forall k | 0 <= k < |answers| :: answers[k].mod,
                    forall k | 0 <= k < |answers| :: answers[k].ref,
                    forall k | 0 <= k < |answers| :: answers[k].noMust)
  }

  ghost function ArgInfo(aas: seq<Analysis>, c: Call, i: int): ModRefInfo {
    Meet(seq(|aas|, k requires 0 <= k < |aas| => aas[k].argModRef(c, i)))
  }

  ghost function CallLocAnswers(aas: seq<Analysis>, c: Call, l: Location): ModRefInfo {
    Meet(seq(|aas|, k requires 0 <= k < |aas| => aas[k].callLoc(c, l)))
  }

  ghost function CallCallAnswers(aas: seq<Analysis>, c: Call, d: Call): ModRefInfo {
    Meet(seq(|aas|, k requires 0 <= k < |aas| => aas[k].callCall(c, d)))
  }

  /** The loop all three queries share: intersect, and leave at the bottom of the lattice. */
  method MeetLoop(answers: seq<ModRefInfo>) returns (r: ModRefInfo)
    ensures r == Meet(answers)
  {
    r := MOD_REF;
    for k := 0 to |answers|
      invariant !r.IsNoModRef()
      invariant r.mod <==> forall j | 0 <= j < k :: answers[j].mod
      invariant r.ref <==> forall j | 0 <= j < k :: answers[j].ref
      invariant r.noMust <==> forall j | 0 <= j < k :: answers[j].noMust
    {
      r := Intersect(r, answers[k]);
      if r.IsNoModRef() {
        return NO_MOD_REF;
      }
    }
  }

  method GetArgModRefInfo(aas: seq<Analysis>, c: Call, i: int) returns (r: ModRefInfo)
    ensures r == ArgInfo(aas, c, i)
  {
    r := MeetLoop(seq(|aas|, k requires 0 <= k < |aas| => aas[k].argModRef(c, i)));
  }

  function BehaviorOf(aas: seq<Analysis>, c: Call): Behavior {
    if aas == [] then UNKNOWN_BEHAVIOR else Both(BehaviorOf(aas[..|aas| - 1], c), aas[|aas| - 1].behavior(c))
  }

  /** The intersection of all behaviors, although the loop leaves once no access is possible. */
  method GetModRefBehavior(aas: seq<Analysis>, c: Call) returns (r: Behavior)
    ensures r == BehaviorOf(aas, c)
  {
    r := UNKNOWN_BEHAVIOR;
    for k := 0 to |aas|
      invariant r == BehaviorOf(aas[..k], c)
    {
      assert aas[..k + 1][..k] == aas[..k];
      r := Both(r, aas[k].behavior(c));
      if r == DOES_NOT_ACCESS_MEMORY {
        NoneStaysNone(aas, c, k + 1);
        return;
      }
    }
    assert aas[..|aas|] == aas;
  }

  lemma {:induction false} NoneStaysNone(aas: seq<Analysis>, c: Call, k: int)
    requires 0 <= k <= |aas| && BehaviorOf(aas[..k], c) == DOES_NOT_ACCESS_MEMORY
    ensures BehaviorOf(aas, c) == DOES_NOT_ACCESS_MEMORY
    decreases |aas| - k
  {
    if k == |aas| {
      assert aas[..k] == aas;
    } else {
      assert aas[..k + 1][..k] == aas[..k];
      NoneStaysNone(aas, c, k + 1);
    }
  }

  // ----- A call and a location -----

  ghost predicate Aliases(aas: seq<Analysis>, c: Call, l: Location, i: int) {
    0 <= i < |c.args| && c.args[i].isPointer && AliasOf(aas, c.args[i].loc, l) != NoAlias
  }

  /** Some pointer argument may point into the location, and may be written or read as asked. */
  ghost predicate SomeArg(aas: seq<Analysis>, c: Call, l: Location, mod: bool, ref: bool) {
    exists i :: Aliases(aas, c, l, i) && (mod ==> ArgInfo(aas, c, i).mod) && (ref ==> ArgInfo(aas, c, i).ref)
  }

  /** The answer after the analyses and the behavior of the call, before its arguments. */
  ghost function CallLocByBehavior(aas: seq<Analysis>, c: Call, l: Location): ModRefInfo {
    var m, b := CallLocAnswers(aas, c, l), BehaviorOf(aas, c);
    if b.OnlyReadsMemory() then ClearMod(m) else if b.DoesNotReadMemory() then ClearRef(m) else m
  }

  /** The exact answer for a call and a location. */
  ghost function CallLoc(aas: seq<Analysis>, c: Call, l: Location): ModRefInfo {
    var b, m := BehaviorOf(aas, c), CallLocByBehavior(aas, c, l);
    if CallLocAnswers(aas, c, l).IsNoModRef() || b == DOES_NOT_ACCESS_MEMORY || b == ONLY_ACCESSES_INACCESSIBLE_MEM
    then NO_MOD_REF
    else if b.OnlyAccessesInaccessibleOrArgMem() then
      if !b.DoesAccessArgPointees() || !SomeArg(aas, c, l, false, false) then NO_MOD_REF
      else
        ModRefInfo(m.mod && SomeArg(aas, c, l, true, false) && !IsConstant(aas, l),
                   m.ref && SomeArg(aas, c, l, false, true),
                   exists i :: 0 <= i < |c.args| && c.args[i].isPointer && AliasOf(aas, c.args[i].loc, l) != MustAlias)
    else m.(mod := m.mod && !IsConstant(aas, l))
  }

  method GetModRefInfoCallLoc(aas: seq<Analysis>, c: Call, l: Location) returns (r: ModRefInfo)
    ensures r == CallLoc(aas, c, l)
  {
    r := MeetLoop(seq(|aas|, k requires 0 <= k < |aas| => aas[k].callLoc(c, l)));
    if r.IsNoModRef() {
      return NO_MOD_REF;
    }
    var b := GetModRefBehavior(aas, c);
    if b == DOES_NOT_ACCESS_MEMORY || b == ONLY_ACCESSES_INACCESSIBLE_MEM {
      return NO_MOD_REF;
    }
    if b.OnlyReadsMemory() {
      r := ClearMod(r);
    } else if b.DoesNotReadMemory() {
      r := ClearRef(r);
    }
    if b.OnlyAccessesArgPointees() || b.OnlyAccessesInaccessibleOrArgMem() {
      var doesAlias, isMustAlias, allArgsMask := false, true, NO_MOD_REF;
      if b.DoesAccessArgPointees() {
        doesAlias, isMustAlias, allArgsMask := ScanArguments(aas, c, l);
      }
      if !doesAlias {
        return NO_MOD_REF;
      }
      r := Intersect(r, allArgsMask);
      r := r.(noMust := !isMustAlias);
    }
    if r.mod {
      var constant := PointsToConstantMemory(aas, l);
      if constant {
        r := ClearMod(r);
      }
    }
  }

  /** Which arguments may point into the location, and what the call may do through them. */
  method ScanArguments(aas: seq<Analysis>, c: Call, l: Location)
    returns (doesAlias: bool, isMustAlias: bool, mask: ModRefInfo)
    ensures doesAlias <==> SomeArg(aas, c, l, false, false)
    ensures mask.mod <==> SomeArg(aas, c, l, true, false)
    ensures mask.ref <==> SomeArg(aas, c, l, false, true)
    ensures isMustAlias <==> forall i | 0 <= i < |c.args| && c.args[i].isPointer :: AliasOf(aas, c.args[i].loc, l) == MustAlias
  {
    hide AliasOf, ArgInfo;
    doesAlias, isMustAlias, mask := false, true, NO_MOD_REF;
    for i := 0 to |c.args|
      invariant doesAlias <==> exists j :: 0 <= j < i && Aliases(aas, c, l, j)
      invariant mask.mod <==> exists j :: 0 <= j < i && Aliases(aas, c, l, j) && ArgInfo(aas, c, j).mod
      invariant mask.ref <==> exists j :: 0 <= j < i && Aliases(aas, c, l, j) && ArgInfo(aas, c, j).ref
      invariant isMustAlias <==> forall j | 0 <= j < i && c.args[j].isPointer :: AliasOf(aas, c.args[j].loc, l) == MustAlias
    {
      if !c.args[i].isPointer {
        continue;
      }
      var argAlias := Alias(aas, c.args[i].loc, l);
      if argAlias != NoAlias {
        var argMask := GetArgModRefInfo(aas, c, i);
        doesAlias := true;
        mask := Union(mask, argMask);
        assert Aliases(aas, c, l, i);
      }
      isMustAlias := isMustAlias && argAlias == MustAlias;
    }
  }

  lemma {:induction false} AliasSound(w: World, aas: seq<Analysis>, a: Location, b: Location)
    requires AllSound(w, aas) && AliasOf(aas, a, b) == NoAlias
    ensures Disjoint(w, a, b)
  {
    assert Sound(w, aas[0]);
    if aas[0].alias(a, b) == MayAlias {
      AliasSound(w, aas[1..], a, b);
    }
  }

  lemma {:induction false} BehaviorSound(w: World, aas: seq<Analysis>, c: Call)
    requires AllSound(w, aas)
    ensures AllAllowed(w, BehaviorOf(aas, c), c)
  {
    if aas != [] {
      BehaviorSound(w, aas[..|aas| - 1], c);
      assert Sound(w, aas[|aas| - 1]);
    }
  }

  lemma ArgSound(w: World, aas: seq<Analysis>, c: Call, i: int)
    requires AllSound(w, aas)
    ensures ArgCovered(w, ArgInfo(aas, c, i), c, i)
  {
    forall k | 0 <= k < |aas| ensures ArgCovered(w, aas[k].argModRef(c, i), c, i) {
      assert Sound(w, aas[k]);
    }
  }

  lemma ConstantSound(w: World, aas: seq<Analysis>, c: Call, l: Location)
    requires AllSound(w, aas) && IsConstant(aas, l)
    ensures !ModsLoc(w, c, l)
  {
    var k :| 0 <= k < |aas| && aas[k].constant(l);
    assert Sound(w, aas[k]);
  }

  lemma CallLocAnswersSound(w: World, aas: seq<Analysis>, c: Call, l: Location)
    requires AllSound(w, aas)
    ensures CallLocAnswers(aas, c, l).Covers(ModRefInfo(ModsLoc(w, c, l), RefsLoc(w, c, l), true))
  {
    forall k | 0 <= k < |aas| ensures aas[k].callLoc(c, l).Covers(ModRefInfo(ModsLoc(w, c, l), RefsLoc(w, c, l), true)) {
      assert Sound(w, aas[k]);
    }
  }

  /** One access of the call to the location leaves its bit in the answer. */
  lemma AccessKept(w: World, aas: seq<Analysis>, c: Call, l: Location, a: Access)
    requires AllSound(w, aas) && a in w.accesses(c) && a.addr in w.bytes(l)
    ensures if a.isWrite then CallLoc(aas, c, l).mod else CallLoc(aas, c, l).ref
  {
    hide Sound, BehaviorOf, AliasOf, Meet;
    if a.isWrite {
      assert Writes(w, c, a.addr);
      assert ModsLoc(w, c, l);
      if IsConstant(aas, l) {
        ConstantSound(w, aas, c, l);
      }
    } else {
      assert Reads(w, c, a.addr);
      assert RefsLoc(w, c, l);
    }
    CallLocAnswersSound(w, aas, c, l);
    BehaviorSound(w, aas, c);
    assert Allowed(BehaviorOf(aas, c), a);
    if a.via.ThroughArg? {
      var i := a.via.i;
      if AliasOf(aas, c.args[i].loc, l) == NoAlias {
        AliasSound(w, aas, c.args[i].loc, l);
      }
      assert Aliases(aas, c, l, i);
      ArgSound(w, aas, c, i);
    }
  }

  /** The combined answer for a call and a location never drops a bit. */
  lemma CallLocSound(w: World, aas: seq<Analysis>, c: Call, l: Location)
    requires AllSound(w, aas)
    ensures CallLoc(aas, c, l).Covers(ModRefInfo(ModsLoc(w, c, l), RefsLoc(w, c, l), true))
  {
    hide AllSound, CallLoc;
    if ModsLoc(w, c, l) {
      var x :| x in w.bytes(l) && Writes(w, c, x);
      var a :| a in w.accesses(c) && a.addr == x && a.isWrite;
      AccessKept(w, aas, c, l, a);
    }
    if RefsLoc(w, c, l) {
      var x :| x in w.bytes(l) && Reads(w, c, x);
      var a :| a in w.accesses(c) && a.addr == x && !a.isWrite;
      AccessKept(w, aas, c, l, a);
    }
  }

  // ----- What the answers say of each analysis -----

  /** A combined answer has a bit exactly if every answer has it, and says must if one does. */
  lemma MeetBits(answers: seq<ModRefInfo>)
    ensures Meet(answers).mod <==> forall k | 0 <= k < |answers| :: answers[k].mod
    ensures Meet(answers).ref <==> forall k | 0 <= k < |answers| :: answers[k].ref
    ensures !Meet(answers).IsNoModRef() ==>
      (Meet(answers).IsMustSet() <==> exists k :: 0 <= k < |answers| && answers[k].IsMustSet())
  {
  }

  lemma AnswerBits(aas: seq<Analysis>, c: Call, l: Location)
    ensures CallLocAnswers(aas, c, l).mod <==> forall k | 0 <= k < |aas| :: aas[k].callLoc(c, l).mod
    ensures CallLocAnswers(aas, c, l).ref <==> forall k | 0 <= k < |aas| :: aas[k].callLoc(c, l).ref
    ensures !CallLocAnswers(aas, c, l).IsNoModRef() ==>
      (CallLocAnswers(aas, c, l).IsMustSet() <==> exists k :: 0 <= k < |aas| && aas[k].callLoc(c, l).IsMustSet())
  {
    var answers := seq(|aas|, k requires 0 <= k < |aas| => aas[k].callLoc(c, l));
    MeetBits(answers);
    assert forall k | 0 <= k < |aas| :: answers[k] == aas[k].callLoc(c, l);
  }

  lemma CallCallAnswerBits(aas: seq<Analysis>, c: Call, d: Call)
    ensures CallCallAnswers(aas, c, d).mod <==> forall k | 0 <= k < |aas| :: aas[k].callCall(c, d).mod
    ensures CallCallAnswers(aas, c, d).ref <==> forall k | 0 <= k < |aas| :: aas[k].callCall(c, d).ref
  {
    var answers := seq(|aas|, k requires 0 <= k < |aas| => aas[k].callCall(c, d));
    MeetBits(answers);
    assert forall k | 0 <= k < |aas| :: answers[k] == aas[k].callCall(c, d);
  }

  /** An argument may be written (read) exactly if no analysis says otherwise. */
  lemma ArgBits(aas: seq<Analysis>, c: Call, i: int)
    ensures ArgInfo(aas, c, i).mod <==> forall k | 0 <= k < |aas| :: aas[k].argModRef(c, i).mod
    ensures ArgInfo(aas, c, i).ref <==> forall k | 0 <= k < |aas| :: aas[k].argModRef(c, i).ref
  {
    var answers := seq(|aas|, k requires 0 <= k < |aas| => aas[k].argModRef(c, i));
    MeetBits(answers);
    assert forall k | 0 <= k < |aas| :: answers[k] == aas[k].argModRef(c, i);
  }

  /** The combined behavior allows exactly what every analysis allows. */
  lemma {:induction false} BehaviorBits(aas: seq<Analysis>, c: Call)
    ensures var b := BehaviorOf(aas, c);
      && (b.mod <==> forall k | 0 <= k < |aas| :: aas[k].behavior(c).mod)
      && (b.ref <==> forall k | 0 <= k < |aas| :: aas[k].behavior(c).ref)
      && (b.argPointees <==> forall k | 0 <= k < |aas| :: aas[k].behavior(c).argPointees)
      && (b.inaccessible <==> forall k | 0 <= k < |aas| :: aas[k].behavior(c).inaccessible)
      && (b.other <==> forall k | 0 <= k < |aas| :: aas[k].behavior(c).other)
  {
    if aas != [] {
      var init, last := aas[..|aas| - 1], aas[|aas| - 1];
      BehaviorBits(init, c);
      assert forall k | 0 <= k < |init| :: init[k] == aas[k];
    }
  }

  /** The first analysis with anything to say says that the locations are disjoint. */
  ghost predicate ToldApart(aas: seq<Analysis>, a: Location, b: Location) {
    exists k :: ToldBy(aas, a, b, k, NoAlias)
  }

  ghost predicate ToldBy(aas: seq<Analysis>, a: Location, b: Location, k: int, answer: AliasResult) {
    0 <= k < |aas| && aas[k].alias(a, b) == answer && forall j | 0 <= j < k :: aas[j].alias(a, b) == MayAlias
  }

  lemma {:induction false} AliasIsTold(aas: seq<Analysis>, a: Location, b: Location, answer: AliasResult)
    requires answer != MayAlias
    ensures AliasOf(aas, a, b) == answer <==> exists k :: ToldBy(aas, a, b, k, answer)
  {
    if aas != [] {
      var rest := aas[1..];
      AliasIsTold(rest, a, b, answer);
      assert forall k | 0 <= k < |rest| :: rest[k] == aas[k + 1];
      if aas[0].alias(a, b) != MayAlias {
        assert aas[0].alias(a, b) == answer ==> ToldBy(aas, a, b, 0, answer);
      } else {
        if k :| ToldBy(rest, a, b, k, answer) {
          assert ToldBy(aas, a, b, k + 1, answer);
        }
        if k :| ToldBy(aas, a, b, k, answer) {
          assert ToldBy(rest, a, b, k - 1, answer);
        }
      }
    }
  }

  /** The call may get at the location through a pointer argument, with the bit asked for. */
  ghost predicate ThroughSomeArg(aas: seq<Analysis>, c: Call, l: Location, mod: bool) {
    exists i :: 0 <= i < |c.args| && ThroughThisArg(aas, c, l, mod, i)
  }

  ghost predicate ThroughThisArg(aas: seq<Analysis>, c: Call, l: Location, mod: bool, i: int)
    requires 0 <= i < |c.args|
  {
    && c.args[i].isPointer && !ToldApart(aas, c.args[i].loc, l)
    && forall k | 0 <= k < |aas| :: if mod then aas[k].argModRef(c, i).mod else aas[k].argModRef(c, i).ref
  }

  lemma SomeArgIs(aas: seq<Analysis>, c: Call, l: Location, mod: bool)
    ensures SomeArg(aas, c, l, mod, !mod) <==> ThroughSomeArg(aas, c, l, mod)
  {
    hide ArgInfo, AliasOf, ToldApart;
    forall i | 0 <= i < |c.args|
      ensures ThroughThisArg(aas, c, l, mod, i) <==>
        Aliases(aas, c, l, i) && (mod ==> ArgInfo(aas, c, i).mod) && (!mod ==> ArgInfo(aas, c, i).ref)
    {
      ArgBits(aas, c, i);
      ToldApartIs(aas, c.args[i].loc, l);
    }
    if SomeArg(aas, c, l, mod, !mod) {
      var i :| Aliases(aas, c, l, i) && (mod ==> ArgInfo(aas, c, i).mod) && (!mod ==> ArgInfo(aas, c, i).ref);
      assert ThroughThisArg(aas, c, l, mod, i);
    }
    if ThroughSomeArg(aas, c, l, mod) {
      var i :| 0 <= i < |c.args| && ThroughThisArg(aas, c, l, mod, i);
      assert Aliases(aas, c, l, i);
    }
  }

  lemma ToldApartIs(aas: seq<Analysis>, a: Location, b: Location)
    ensures AliasOf(aas, a, b) == NoAlias <==> ToldApart(aas, a, b)
  {
    AliasIsTold(aas, a, b, NoAlias);
  }

  /** When a call may write a location, from the analyses alone: every one of them says that it may,
      that the call writes at all, and that the location is not constant; and the call is not
      confined, or confined to memory that some pointer argument may lead to. */
  lemma CallLocModExact(aas: seq<Analysis>, c: Call, l: Location)
    ensures CallLoc(aas, c, l).mod <==>
      && (forall k | 0 <= k < |aas| :: aas[k].callLoc(c, l).mod && aas[k].behavior(c).mod && !aas[k].constant(l))
      && ((forall k | 0 <= k < |aas| :: aas[k].behavior(c).other) ||
          ((forall k | 0 <= k < |aas| :: aas[k].behavior(c).argPointees) && ThroughSomeArg(aas, c, l, true)))
  {
    hide Meet, BehaviorOf, SomeArg, ThroughSomeArg, CallLocAnswers;
    AnswerBits(aas, c, l);
    BehaviorBits(aas, c);
    SomeArgIs(aas, c, l, true);
    SomeArgLess(aas, c, l, true, false);
  }

  /** When it may read it: the same, but for the location being constant, and that a call that
      writes nothing is taken to read. */
  lemma CallLocRefExact(aas: seq<Analysis>, c: Call, l: Location)
    ensures var writesIt, readsIt := (forall k | 0 <= k < |aas| :: aas[k].behavior(c).mod), (forall k | 0 <= k < |aas| :: aas[k].behavior(c).ref);
      CallLoc(aas, c, l).ref <==>
      && (forall k | 0 <= k < |aas| :: aas[k].callLoc(c, l).ref) && (readsIt || !writesIt)
      && ((forall k | 0 <= k < |aas| :: aas[k].behavior(c).other) ||
          ((forall k | 0 <= k < |aas| :: aas[k].behavior(c).argPointees) && (writesIt || readsIt) && ThroughSomeArg(aas, c, l, false)))
  {
    hide Meet, BehaviorOf, SomeArg, ThroughSomeArg, CallLocAnswers;
    AnswerBits(aas, c, l);
    BehaviorBits(aas, c);
    SomeArgIs(aas, c, l, false);
    SomeArgLess(aas, c, l, false, true);
  }

  /** When an answer that leaves a bit says must: if every pointer argument must alias the location,
      for a confined call, and if some analysis says so, for another. */
  lemma CallLocMustExact(aas: seq<Analysis>, c: Call, l: Location)
    requires !CallLoc(aas, c, l).IsNoModRef()
    ensures CallLoc(aas, c, l).IsMustSet() <==>
      if forall k | 0 <= k < |aas| :: aas[k].behavior(c).other
      then exists k :: 0 <= k < |aas| && aas[k].callLoc(c, l).IsMustSet()
      else forall i | 0 <= i < |c.args| && c.args[i].isPointer :: exists k :: ToldBy(aas, c.args[i].loc, l, k, MustAlias)
  {
    hide Meet, BehaviorOf, SomeArg, CallLocAnswers, AliasOf;
    AnswerBits(aas, c, l);
    BehaviorBits(aas, c);
    forall i | 0 <= i < |c.args|
      ensures AliasOf(aas, c.args[i].loc, l) == MustAlias <==> exists k :: ToldBy(aas, c.args[i].loc, l, k, MustAlias)
    {
      AliasIsTold(aas, c.args[i].loc, l, MustAlias);
    }
  }

  lemma SomeArgLess(aas: seq<Analysis>, c: Call, l: Location, mod: bool, ref: bool)
    ensures SomeArg(aas, c, l, mod, ref) ==> SomeArg(aas, c, l, false, false)
  {
    hide ArgInfo, AliasOf;
  }

  /** An answer is never worse than that of any one analysis. */
  lemma NoWorseThanAny(aas: seq<Analysis>, k: int, c: Call, l: Location, i: int)
    requires 0 <= k < |aas|
    ensures aas[k].callLoc(c, l).Covers(CallLoc(aas, c, l))
    ensures aas[k].argModRef(c, i).Covers(ArgInfo(aas, c, i))
  {
    hide Meet, BehaviorOf, SomeArg, CallLocAnswers;
    AnswerBits(aas, c, l);
    ArgBits(aas, c, i);
  }

  // ----- One more analysis -----

  lemma {:induction false} AliasOneMore(aas: seq<Analysis>, aa: Analysis, a: Location, b: Location)
    ensures AliasOf(aas + [aa], a, b) == if AliasOf(aas, a, b) != MayAlias then AliasOf(aas, a, b) else aa.alias(a, b)
  {
    if aas == [] {
      assert aas + [aa] == [aa] && [aa][1..] == [];
    } else {
      AliasOneMore(aas[1..], aa, a, b);
      assert (aas + [aa])[1..] == aas[1..] + [aa];
    }
  }

  lemma MeetOneMore(answers: seq<ModRefInfo>, more: ModRefInfo)
    ensures Meet(answers).Covers(Meet(answers + [more]))
  {
    var all := answers + [more];
    assert forall k | 0 <= k < |answers| :: all[k] == answers[k];
  }

  lemma ArgOneMore(aas: seq<Analysis>, aa: Analysis, c: Call, i: int)
    ensures ArgInfo(aas, c, i).Covers(ArgInfo(aas + [aa], c, i))
  {
    var answers := seq(|aas|, k requires 0 <= k < |aas| => aas[k].argModRef(c, i));
    var all := aas + [aa];
    MeetOneMore(answers, aa.argModRef(c, i));
    assert seq(|all|, k requires 0 <= k < |all| => all[k].argModRef(c, i)) == answers + [aa.argModRef(c, i)];
  }

  lemma AnswersOneMore(aas: seq<Analysis>, aa: Analysis, c: Call, l: Location)
    ensures CallLocAnswers(aas, c, l).Covers(CallLocAnswers(aas + [aa], c, l))
  {
    var answers := seq(|aas|, k requires 0 <= k < |aas| => aas[k].callLoc(c, l));
    var all := aas + [aa];
    MeetOneMore(answers, aa.callLoc(c, l));
    assert seq(|all|, k requires 0 <= k < |all| => all[k].callLoc(c, l)) == answers + [aa.callLoc(c, l)];
  }

  lemma SomeArgOneMore(aas: seq<Analysis>, aa: Analysis, c: Call, l: Location, mod: bool, ref: bool)
    requires SomeArg(aas + [aa], c, l, mod, ref)
    ensures SomeArg(aas, c, l, mod, ref)
  {
    var i :| Aliases(aas + [aa], c, l, i)
             && (mod ==> ArgInfo(aas + [aa], c, i).mod) && (ref ==> ArgInfo(aas + [aa], c, i).ref);
    AliasOneMore(aas, aa, c.args[i].loc, l);
    ArgOneMore(aas, aa, c, i);
    assert Aliases(aas, c, l, i);
  }

  /** A call known only to write becomes known only to read as well, anywhere in memory: then
      clearing Mod is tried first, and Ref, which had been cleared, stays if the direct answers
      leave it. */
  ghost predicate RefComesBack(aas: seq<Analysis>, aa: Analysis, c: Call, l: Location) {
    var b, b' := BehaviorOf(aas, c), aa.behavior(c);
    && b.DoesNotReadMemory() && !b.OnlyReadsMemory() && b'.OnlyReadsMemory()
    && b.other && b'.other && CallLocAnswers(aas + [aa], c, l).ref
  }

  /** Registering another analysis only takes bits away, except exactly in that case. */
  lemma AnotherAnalysisRefines(aas: seq<Analysis>, aa: Analysis, c: Call, l: Location)
    ensures CallLoc(aas, c, l).Covers(CallLoc(aas + [aa], c, l)) <==> !RefComesBack(aas, aa, c, l)
  {
    hide AliasOf, Meet, SomeArg, BehaviorOf, ArgInfo, CallLocAnswers;
    var all := aas + [aa];
    assert BehaviorOf(all, c) == Both(BehaviorOf(aas, c), aa.behavior(c)) by { BehaviorOneMore(aas, aa, c); }
    AnswersOneMore(aas, aa, c, l);
    forall mod, ref | SomeArg(all, c, l, mod, ref) ensures SomeArg(aas, c, l, mod, ref) {
      SomeArgOneMore(aas, aa, c, l, mod, ref);
    }
    if IsConstant(aas, l) {
      var k :| 0 <= k < |aas| && aas[k].constant(l);
      assert all[k].constant(l);
    }
  }

  lemma BehaviorOneMore(aas: seq<Analysis>, aa: Analysis, c: Call)
    ensures BehaviorOf(aas + [aa], c) == Both(BehaviorOf(aas, c), aa.behavior(c))
  {
    assert (aas + [aa])[..|aas|] == aas;
  }

  /** An analysis that knows the behavior of calls and nothing else. */
  function Knowing(b: Behavior): Analysis {
    Analysis((x, y) => MayAlias, x => false, (c, i) => MOD_REF, c => b, (c, l) => MOD_REF, (c, d) => MOD_REF)
  }

  /** In an execution without accesses both analyses are right. */
  lemma QuietWorld()
    ensures exists w :: AllSound(w, [Knowing(DOES_NOT_READ_MEMORY), Knowing(ONLY_READS_MEMORY)])
  {
    var quiet := World(x => iset{}, x => iset{});
    assert AllSound(quiet, [Knowing(DOES_NOT_READ_MEMORY), Knowing(ONLY_READS_MEMORY)]);
  }

  /** The exception is real, for analyses that are right: a call that writes only is answered
      Mod; told that it only reads, too, the aggregate answers Ref, which it had ruled out. */
  lemma AnotherAnalysisMayAddRef(c: Call, l: Location)
    ensures CallLoc([Knowing(DOES_NOT_READ_MEMORY)], c, l) == ModRefInfo(true, false, true)
    ensures CallLoc([Knowing(DOES_NOT_READ_MEMORY), Knowing(ONLY_READS_MEMORY)], c, l) == ModRefInfo(false, true, true)
    ensures exists w :: AllSound(w, [Knowing(DOES_NOT_READ_MEMORY), Knowing(ONLY_READS_MEMORY)])
  {
    var w, r := Knowing(DOES_NOT_READ_MEMORY), Knowing(ONLY_READS_MEMORY);
    assert BehaviorOf([], c) == UNKNOWN_BEHAVIOR;
    BehaviorOneMore([], w, c);
    BehaviorOneMore([w], r, c);
    assert [] + [w] == [w] && [w] + [r] == [w, r];
    QuietWorld();
  }
}
