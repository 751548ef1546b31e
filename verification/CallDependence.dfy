/** Mod/ref questions between two calls, and between an instruction and a call. */
module CallDependence {
  import opened AliasAggregation

  // ----- Two calls -----

  /** What the second call may do through its argument j makes a dependence of the first: if it
      writes there, any access of the first call; if it only reads, a write. */
  function InverseMask(arg: ModRefInfo): ModRefInfo {
    if arg.mod then MOD_REF else if arg.ref then ModRefInfo(true, false, true) else NO_MOD_REF
  }

  ghost function MaskOfSecond(aas: seq<Analysis>, c1: Call, c2: Call, j: int): ModRefInfo
    requires 0 <= j < |c2.args|
  {
    Intersect(InverseMask(ArgInfo(aas, c2, j)), CallLoc(aas, c1, c2.args[j].loc))
  }

  /** What the first call may do through its argument i, if the second call interferes there. */
  ghost function MaskOfFirst(aas: seq<Analysis>, c1: Call, c2: Call, i: int): ModRefInfo
    requires 0 <= i < |c1.args|
  {
    var arg, m := ArgInfo(aas, c1, i), CallLoc(aas, c2, c1.args[i].loc);
    if (arg.mod && (m.mod || m.ref)) || (arg.ref && m.mod) then arg else NO_MOD_REF
  }

  ghost predicate SomeOfSecond(aas: seq<Analysis>, c1: Call, c2: Call, n: int, mod: bool) {
    exists j :: 0 <= j < n <= |c2.args| && c2.args[j].isPointer
                && if mod then MaskOfSecond(aas, c1, c2, j).mod else MaskOfSecond(aas, c1, c2, j).ref
  }

  ghost predicate SomeOfFirst(aas: seq<Analysis>, c1: Call, c2: Call, n: int, mod: bool) {
    exists i :: 0 <= i < n <= |c1.args| && c1.args[i].isPointer
                && if mod then MaskOfFirst(aas, c1, c2, i).mod else MaskOfFirst(aas, c1, c2, i).ref
  }

  /** The answer from the analyses and the behavior of the first call. */
  ghost function CallCallByBehavior(aas: seq<Analysis>, c1: Call, c2: Call): ModRefInfo {
    var m, b := CallCallAnswers(aas, c1, c2), BehaviorOf(aas, c1);
    if b.OnlyReadsMemory() then ClearMod(m) else if b.DoesNotReadMemory() then ClearRef(m) else m
  }

  /** The exact mod and ref bits of the answer for two calls. */
  ghost predicate CallCallBit(aas: seq<Analysis>, c1: Call, c2: Call, mod: bool) {
    var m, b1, b2 := CallCallByBehavior(aas, c1, c2), BehaviorOf(aas, c1), BehaviorOf(aas, c2);
    && b1 != DOES_NOT_ACCESS_MEMORY && b2 != DOES_NOT_ACCESS_MEMORY
    && !(b1.OnlyReadsMemory() && b2.OnlyReadsMemory())
    && (if mod then m.mod else m.ref)
    && (if b2.OnlyAccessesArgPointees() then b2.DoesAccessArgPointees() && SomeOfSecond(aas, c1, c2, |c2.args|, mod)
        else if b1.OnlyAccessesArgPointees() then b1.DoesAccessArgPointees() && SomeOfFirst(aas, c1, c2, |c1.args|, mod)
        else true)
  }

  /** Going through the second call's arguments nothing more can be added before the last one. */
  ghost predicate SecondStopsEarly(aas: seq<Analysis>, c1: Call, c2: Call, result: ModRefInfo) {
    exists j :: 0 <= j < |c2.args| - 1 && c2.args[j].isPointer
                && FullSecond(aas, c1, c2, result, j + 1)
  }

  /** The first n arguments give every bit of the result. */
  ghost predicate FullSecond(aas: seq<Analysis>, c1: Call, c2: Call, result: ModRefInfo, n: int) {
    (result.mod ==> SomeOfSecond(aas, c1, c2, n, true)) && (result.ref ==> SomeOfSecond(aas, c1, c2, n, false))
  }

  lemma SomeSecondNone(aas: seq<Analysis>, c1: Call, c2: Call)
    ensures !SomeOfSecond(aas, c1, c2, 0, true) && !SomeOfSecond(aas, c1, c2, 0, false)
  {
  }

  lemma MoreSecond(aas: seq<Analysis>, c1: Call, c2: Call, n: nat, mod: bool)
    requires n < |c2.args|
    ensures var m := MaskOfSecond(aas, c1, c2, n);
      SomeOfSecond(aas, c1, c2, n + 1, mod) <==>
        SomeOfSecond(aas, c1, c2, n, mod) || (c2.args[n].isPointer && if mod then m.mod else m.ref)
    ensures SomeOfSecond(aas, c1, c2, n + 1, mod) ==> SomeOfSecond(aas, c1, c2, |c2.args|, mod)
  {
    hide MaskOfSecond;
  }

  ghost predicate FirstStopsEarly(aas: seq<Analysis>, c1: Call, c2: Call, result: ModRefInfo) {
    exists i :: 0 <= i < |c1.args| - 1 && c1.args[i].isPointer
                && FullFirst(aas, c1, c2, result, i + 1)
  }

  /** The first n arguments give every bit of the result. */
  ghost predicate FullFirst(aas: seq<Analysis>, c1: Call, c2: Call, result: ModRefInfo, n: int) {
    (result.mod ==> SomeOfFirst(aas, c1, c2, n, true)) && (result.ref ==> SomeOfFirst(aas, c1, c2, n, false))
  }

  lemma SomeFirstNone(aas: seq<Analysis>, c1: Call, c2: Call)
    ensures !SomeOfFirst(aas, c1, c2, 0, true) && !SomeOfFirst(aas, c1, c2, 0, false)
  {
  }

  lemma MoreFirst(aas: seq<Analysis>, c1: Call, c2: Call, n: nat, mod: bool)
    requires n < |c1.args|
    ensures var m := MaskOfFirst(aas, c1, c2, n);
      SomeOfFirst(aas, c1, c2, n + 1, mod) <==>
        SomeOfFirst(aas, c1, c2, n, mod) || (c1.args[n].isPointer && if mod then m.mod else m.ref)
    ensures SomeOfFirst(aas, c1, c2, n + 1, mod) ==> SomeOfFirst(aas, c1, c2, |c1.args|, mod)
  {
    hide MaskOfFirst;
  }

  ghost predicate AllMustSecond(aas: seq<Analysis>, c1: Call, c2: Call) {
    forall j | 0 <= j < |c2.args| && c2.args[j].isPointer :: CallLoc(aas, c1, c2.args[j].loc).IsMustSet()
  }

  ghost predicate AllMustFirst(aas: seq<Analysis>, c1: Call, c2: Call) {
    forall i | 0 <= i < |c1.args| && c1.args[i].isPointer :: CallLoc(aas, c2, c1.args[i].loc).IsMustSet()
  }

  /** When the must bit is set: if all arguments were gone through and each was a must-alias. */
  ghost predicate MustJustified(aas: seq<Analysis>, c1: Call, c2: Call) {
    var result := CallCallByBehavior(aas, c1, c2);
    if BehaviorOf(aas, c2).OnlyAccessesArgPointees() then
      AllMustSecond(aas, c1, c2) && !SecondStopsEarly(aas, c1, c2, result)
    else if BehaviorOf(aas, c1).OnlyAccessesArgPointees() then
      AllMustFirst(aas, c1, c2) && !FirstStopsEarly(aas, c1, c2, result)
    else CallCallAnswers(aas, c1, c2).IsMustSet()
  }

  method GetModRefInfoCallCall(aas: seq<Analysis>, c1: Call, c2: Call) returns (r: ModRefInfo)
    ensures r.mod <==> CallCallBit(aas, c1, c2, true)
    ensures r.ref <==> CallCallBit(aas, c1, c2, false)
    ensures !r.IsNoModRef() ==> (r.IsMustSet() <==> MustJustified(aas, c1, c2))
  {
    r := MeetLoop(seq(|aas|, k requires 0 <= k < |aas| => aas[k].callCall(c1, c2)));
    if r.IsNoModRef() {
      return NO_MOD_REF;
    }
    var b1 := GetModRefBehavior(aas, c1);
    if b1 == DOES_NOT_ACCESS_MEMORY {
      return NO_MOD_REF;
    }
    var b2 := GetModRefBehavior(aas, c2);
    if b2 == DOES_NOT_ACCESS_MEMORY {
      return NO_MOD_REF;
    }
    if b1.OnlyReadsMemory() && b2.OnlyReadsMemory() {
      return NO_MOD_REF;
    }
    if b1.OnlyReadsMemory() {
      r := ClearMod(r);
    } else if b1.DoesNotReadMemory() {
      r := ClearRef(r);
    }
    if b2.OnlyAccessesArgPointees() {
      if !b2.DoesAccessArgPointees() {
        return NO_MOD_REF;
      }
      var isMustAlias;
      r, isMustAlias := RefineBySecond(aas, c1, c2, r);
      return if r.IsNoModRef() then NO_MOD_REF else r.(noMust := !isMustAlias);
    }
    if b1.OnlyAccessesArgPointees() {
      if !b1.DoesAccessArgPointees() {
        return NO_MOD_REF;
      }
      var isMustAlias;
      r, isMustAlias := RefineByFirst(aas, c1, c2, r);
      return if r.IsNoModRef() then NO_MOD_REF else r.(noMust := !isMustAlias);
    }
  }

  /** Accumulate the first call's references to the memory of the second call's arguments, until
      nothing more can be added. */
  method RefineBySecond(aas: seq<Analysis>, c1: Call, c2: Call, result: ModRefInfo)
    returns (r: ModRefInfo, isMustAlias: bool)
    ensures r.mod <==> result.mod && SomeOfSecond(aas, c1, c2, |c2.args|, true)
    ensures r.ref <==> result.ref && SomeOfSecond(aas, c1, c2, |c2.args|, false)
    ensures isMustAlias ==>
              forall j | 0 <= j < |c2.args| && c2.args[j].isPointer :: CallLoc(aas, c1, c2.args[j].loc).IsMustSet()
    ensures !result.IsNoModRef() ==> (isMustAlias <==> AllMustSecond(aas, c1, c2) && !SecondStopsEarly(aas, c1, c2, result))
  {
    hide CallLoc, ArgInfo, SomeOfSecond;
    r, isMustAlias := NO_MOD_REF, true;
    SomeSecondNone(aas, c1, c2);
    for j := 0 to |c2.args|
      invariant r.mod <==> result.mod && SomeOfSecond(aas, c1, c2, j, true)
      invariant r.ref <==> result.ref && SomeOfSecond(aas, c1, c2, j, false)
      invariant isMustAlias <==>
                  forall k | 0 <= k < j && c2.args[k].isPointer :: CallLoc(aas, c1, c2.args[k].loc).IsMustSet()
      invariant (result.noMust ==> r.noMust) && (!r.IsNoModRef() ==> r.noMust == result.noMust)
      invariant !result.IsNoModRef() ==> forall k | 0 <= k < j && c2.args[k].isPointer ::
        !FullSecond(aas, c1, c2, result, k + 1)
    {
      MoreSecond(aas, c1, c2, j, true);
      MoreSecond(aas, c1, c2, j, false);
      if !c2.args[j].isPointer {
        continue;
      }
      var argInfo := GetArgModRefInfo(aas, c2, j);
      var argMask := InverseMask(argInfo);
      var first := GetModRefInfoCallLoc(aas, c1, c2.args[j].loc);
      argMask := Intersect(argMask, first);
      assert argMask == MaskOfSecond(aas, c1, c2, j);
      isMustAlias := isMustAlias && first.IsMustSet();
      r := Intersect(Union(r, argMask), result);
      if r == result {
        if j + 1 != |c2.args| {
          isMustAlias := false;
        }
        break;
      }
    }
  }

  /** Accumulate what the first call does through those of its arguments where the second
      interferes, until nothing more can be added. */
  method RefineByFirst(aas: seq<Analysis>, c1: Call, c2: Call, result: ModRefInfo)
    returns (r: ModRefInfo, isMustAlias: bool)
    ensures r.mod <==> result.mod && SomeOfFirst(aas, c1, c2, |c1.args|, true)
    ensures r.ref <==> result.ref && SomeOfFirst(aas, c1, c2, |c1.args|, false)
    ensures isMustAlias ==>
              forall i | 0 <= i < |c1.args| && c1.args[i].isPointer :: CallLoc(aas, c2, c1.args[i].loc).IsMustSet()
    ensures !result.IsNoModRef() ==> (isMustAlias <==> AllMustFirst(aas, c1, c2) && !FirstStopsEarly(aas, c1, c2, result))
  {
    hide CallLoc, ArgInfo, SomeOfFirst;
    r, isMustAlias := NO_MOD_REF, true;
    SomeFirstNone(aas, c1, c2);
    for i := 0 to |c1.args|
      invariant r.mod <==> result.mod && SomeOfFirst(aas, c1, c2, i, true)
      invariant r.ref <==> result.ref && SomeOfFirst(aas, c1, c2, i, false)
      invariant isMustAlias <==>
                  forall k | 0 <= k < i && c1.args[k].isPointer :: CallLoc(aas, c2, c1.args[k].loc).IsMustSet()
      invariant (result.noMust ==> r.noMust) && (!r.IsNoModRef() ==> r.noMust == result.noMust)
      invariant !result.IsNoModRef() ==> forall k | 0 <= k < i && c1.args[k].isPointer ::
        !FullFirst(aas, c1, c2, result, k + 1)
    {
      MoreFirst(aas, c1, c2, i, true);
      MoreFirst(aas, c1, c2, i, false);
      if !c1.args[i].isPointer {
        continue;
      }
      var argInfo := GetArgModRefInfo(aas, c1, i);
      var second := GetModRefInfoCallLoc(aas, c2, c1.args[i].loc);
      if (argInfo.mod && !second.IsNoModRef()) || (argInfo.ref && second.mod) {
        r := Intersect(Union(r, argInfo), result);
      }
      assert MaskOfFirst(aas, c1, c2, i) == argInfo || MaskOfFirst(aas, c1, c2, i) == NO_MOD_REF;
      isMustAlias := isMustAlias && second.IsMustSet();
      if r == result {
        if i + 1 != |c1.args| {
          isMustAlias := false;
        }
        break;
      }
    }
  }

  // ----- What the answers say of each analysis -----

  /** Confined to memory its pointer arguments lead to. */
  predicate ArgsOnly(b: Behavior) { !b.inaccessible && !b.other }

  /** Through argument j the second call touches memory that the first one may write. */
  ghost predicate ModThroughSecond(aas: seq<Analysis>, c1: Call, c2: Call, j: int)
    requires 0 <= j < |c2.args|
  {
    var arg := ArgInfo(aas, c2, j);
    c2.args[j].isPointer && (arg.mod || arg.ref) && CallLoc(aas, c1, c2.args[j].loc).mod
  }

  /** Through argument j the second call writes memory that the first one may read. */
  ghost predicate RefThroughSecond(aas: seq<Analysis>, c1: Call, c2: Call, j: int)
    requires 0 <= j < |c2.args|
  {
    c2.args[j].isPointer && ArgInfo(aas, c2, j).mod && CallLoc(aas, c1, c2.args[j].loc).ref
  }

  /** Through argument i the first call writes memory that the second one may touch. */
  ghost predicate ModThroughFirst(aas: seq<Analysis>, c1: Call, c2: Call, i: int)
    requires 0 <= i < |c1.args|
  {
    var second := CallLoc(aas, c2, c1.args[i].loc);
    c1.args[i].isPointer && ArgInfo(aas, c1, i).mod && (second.mod || second.ref)
  }

  /** Through argument i the first call reads memory that the second one may write, or, as both
      bits of an argument are taken together, writes what that one may read. */
  ghost predicate RefThroughFirst(aas: seq<Analysis>, c1: Call, c2: Call, i: int)
    requires 0 <= i < |c1.args|
  {
    var arg, second := ArgInfo(aas, c1, i), CallLoc(aas, c2, c1.args[i].loc);
    c1.args[i].isPointer && arg.ref && (second.mod || (arg.mod && second.ref))
  }

  /** When the first of two calls may write what the second one touches. */
  lemma CallCallModExact(aas: seq<Analysis>, c1: Call, c2: Call)
    ensures var b1, b2 := BehaviorOf(aas, c1), BehaviorOf(aas, c2);
      CallCallBit(aas, c1, c2, true) <==>
      && (forall k | 0 <= k < |aas| :: aas[k].callCall(c1, c2).mod && aas[k].behavior(c1).mod)
      && b2 != Behavior(false, false, false, false, false)
      && (ArgsOnly(b2) ==>
            (b2.mod || b2.ref) && b2.argPointees && exists j :: 0 <= j < |c2.args| && ModThroughSecond(aas, c1, c2, j))
      && (!ArgsOnly(b2) && ArgsOnly(b1) ==>
            b1.argPointees && exists i :: 0 <= i < |c1.args| && ModThroughFirst(aas, c1, c2, i))
  {
    hide Meet, BehaviorOf, ArgInfo, CallLoc, CallCallAnswers;
    CallCallAnswerBits(aas, c1, c2);
    BehaviorBits(aas, c1);
    SecondIs(aas, c1, c2);
    FirstIs(aas, c1, c2);
  }

  /** When the first of two calls may read what the second one writes. */
  lemma CallCallRefExact(aas: seq<Analysis>, c1: Call, c2: Call)
    ensures var b1, b2 := BehaviorOf(aas, c1), BehaviorOf(aas, c2);
      CallCallBit(aas, c1, c2, false) <==>
      && (forall k | 0 <= k < |aas| :: aas[k].callCall(c1, c2).ref) && (b1.ref || !b1.mod) && (b1.mod || b2.mod)
      && b1 != Behavior(false, false, false, false, false) && b2 != Behavior(false, false, false, false, false)
      && (ArgsOnly(b2) ==>
            (b2.mod || b2.ref) && b2.argPointees && exists j :: 0 <= j < |c2.args| && RefThroughSecond(aas, c1, c2, j))
      && (!ArgsOnly(b2) && ArgsOnly(b1) ==>
            (b1.mod || b1.ref) && b1.argPointees && exists i :: 0 <= i < |c1.args| && RefThroughFirst(aas, c1, c2, i))
  {
    hide Meet, BehaviorOf, ArgInfo, CallLoc, CallCallAnswers;
    CallCallAnswerBits(aas, c1, c2);
    SecondIs(aas, c1, c2);
    FirstIs(aas, c1, c2);
  }

  lemma SecondIs(aas: seq<Analysis>, c1: Call, c2: Call)
    ensures SomeOfSecond(aas, c1, c2, |c2.args|, true) <==> exists j :: 0 <= j < |c2.args| && ModThroughSecond(aas, c1, c2, j)
    ensures SomeOfSecond(aas, c1, c2, |c2.args|, false) <==> exists j :: 0 <= j < |c2.args| && RefThroughSecond(aas, c1, c2, j)
  {
    hide ArgInfo, CallLoc;
    forall j | 0 <= j < |c2.args|
      ensures c2.args[j].isPointer && MaskOfSecond(aas, c1, c2, j).mod <==> ModThroughSecond(aas, c1, c2, j)
      ensures c2.args[j].isPointer && MaskOfSecond(aas, c1, c2, j).ref <==> RefThroughSecond(aas, c1, c2, j)
    {
    }
  }

  lemma FirstIs(aas: seq<Analysis>, c1: Call, c2: Call)
    ensures SomeOfFirst(aas, c1, c2, |c1.args|, true) <==> exists i :: 0 <= i < |c1.args| && ModThroughFirst(aas, c1, c2, i)
    ensures SomeOfFirst(aas, c1, c2, |c1.args|, false) <==> exists i :: 0 <= i < |c1.args| && RefThroughFirst(aas, c1, c2, i)
  {
    hide ArgInfo, CallLoc;
    forall i | 0 <= i < |c1.args|
      ensures c1.args[i].isPointer && MaskOfFirst(aas, c1, c2, i).mod <==> ModThroughFirst(aas, c1, c2, i)
      ensures c1.args[i].isPointer && MaskOfFirst(aas, c1, c2, i).ref <==> RefThroughFirst(aas, c1, c2, i)
    {
    }
  }

  /** The answer for two calls is never worse than that of any one analysis. */
  lemma NoWorseForCalls(aas: seq<Analysis>, k: int, c1: Call, c2: Call)
    requires 0 <= k < |aas|
    ensures CallCallBit(aas, c1, c2, true) ==> aas[k].callCall(c1, c2).mod
    ensures CallCallBit(aas, c1, c2, false) ==> aas[k].callCall(c1, c2).ref
  {
    hide BehaviorOf, SomeOfFirst, SomeOfSecond, CallCallAnswers;
    CallCallAnswerBits(aas, c1, c2);
  }

  // ----- Soundness -----

  /** Memory that both calls touch, and the second only through arguments, shows in its masks. */
  lemma SecondKept(w: World, aas: seq<Analysis>, c1: Call, c2: Call, a1: Access, a2: Access)
    requires AllSound(w, aas) && a1 in w.accesses(c1) && a2 in w.accesses(c2) && a1.addr == a2.addr
    requires a1.isWrite || a2.isWrite
    requires BehaviorOf(aas, c2).OnlyAccessesArgPointees()
    ensures SomeOfSecond(aas, c1, c2, |c2.args|, a1.isWrite) && BehaviorOf(aas, c2).DoesAccessArgPointees()
  {
    hide CallLoc, ArgInfo, BehaviorOf, Sound;
    BehaviorSound(w, aas, c2);
    assert Allowed(BehaviorOf(aas, c2), a2);
    var j := a2.via.i;
    ArgSound(w, aas, c2, j);
    AccessKept(w, aas, c1, c2.args[j].loc, a1);
    assert if a1.isWrite then MaskOfSecond(aas, c1, c2, j).mod else MaskOfSecond(aas, c1, c2, j).ref;
  }

  lemma FirstKept(w: World, aas: seq<Analysis>, c1: Call, c2: Call, a1: Access, a2: Access)
    requires AllSound(w, aas) && a1 in w.accesses(c1) && a2 in w.accesses(c2) && a1.addr == a2.addr
    requires a1.isWrite || a2.isWrite
    requires BehaviorOf(aas, c1).OnlyAccessesArgPointees()
    ensures SomeOfFirst(aas, c1, c2, |c1.args|, a1.isWrite) && BehaviorOf(aas, c1).DoesAccessArgPointees()
  {
    hide CallLoc, ArgInfo, BehaviorOf, Sound;
    BehaviorSound(w, aas, c1);
    assert Allowed(BehaviorOf(aas, c1), a1);
    var i := a1.via.i;
    ArgSound(w, aas, c1, i);
    AccessKept(w, aas, c2, c1.args[i].loc, a2);
    assert if a1.isWrite then MaskOfFirst(aas, c1, c2, i).mod else MaskOfFirst(aas, c1, c2, i).ref;
  }

  lemma CallCallAnswersSound(w: World, aas: seq<Analysis>, c: Call, d: Call)
    requires AllSound(w, aas)
    ensures CallCallAnswers(aas, c, d).Covers(ModRefInfo(ModsCall(w, c, d), RefsCall(w, c, d), true))
  {
    forall k | 0 <= k < |aas| ensures aas[k].callCall(c, d).Covers(ModRefInfo(ModsCall(w, c, d), RefsCall(w, c, d), true)) {
      assert Sound(w, aas[k]);
    }
  }

  /** Two accesses to the same memory, one of them a write, leave the first one's bit. */
  lemma DependenceKept(w: World, aas: seq<Analysis>, c1: Call, c2: Call, a1: Access, a2: Access)
    requires AllSound(w, aas) && a1 in w.accesses(c1) && a2 in w.accesses(c2) && a1.addr == a2.addr
    requires a1.isWrite || a2.isWrite
    ensures CallCallBit(aas, c1, c2, a1.isWrite)
  {
    hide BehaviorOf, Sound, Meet, SomeOfFirst, SomeOfSecond;
    if a1.isWrite {
      assert Writes(w, c1, a1.addr);
      assert Writes(w, c2, a1.addr) || Reads(w, c2, a1.addr);
      assert ModsCall(w, c1, c2);
    } else {
      assert Reads(w, c1, a1.addr) && Writes(w, c2, a1.addr);
      assert RefsCall(w, c1, c2);
    }
    CallCallAnswersSound(w, aas, c1, c2);
    BehaviorSound(w, aas, c1);
    BehaviorSound(w, aas, c2);
    assert Allowed(BehaviorOf(aas, c1), a1) && Allowed(BehaviorOf(aas, c2), a2);
    if BehaviorOf(aas, c2).OnlyAccessesArgPointees() {
      SecondKept(w, aas, c1, c2, a1, a2);
    } else if BehaviorOf(aas, c1).OnlyAccessesArgPointees() {
      FirstKept(w, aas, c1, c2, a1, a2);
    }
  }

  /** The combined answer for two calls never drops a bit. */
  lemma CallCallSound(w: World, aas: seq<Analysis>, c1: Call, c2: Call)
    requires AllSound(w, aas)
    ensures ModsCall(w, c1, c2) ==> CallCallBit(aas, c1, c2, true)
    ensures RefsCall(w, c1, c2) ==> CallCallBit(aas, c1, c2, false)
  {
    hide AllSound, CallCallBit;
    if ModsCall(w, c1, c2) {
      var x :| Writes(w, c1, x) && (Writes(w, c2, x) || Reads(w, c2, x));
      var a1 :| a1 in w.accesses(c1) && a1.addr == x && a1.isWrite;
      var a2 :| a2 in w.accesses(c2) && a2.addr == x;
      DependenceKept(w, aas, c1, c2, a1, a2);
    }
    if RefsCall(w, c1, c2) {
      var x :| Reads(w, c1, x) && Writes(w, c2, x);
      var a1 :| a1 in w.accesses(c1) && a1.addr == x && !a1.isWrite;
      var a2 :| a2 in w.accesses(c2) && a2.addr == x && a2.isWrite;
      DependenceKept(w, aas, c1, c2, a1, a2);
    }
  }

  // ----- An instruction and a call -----

  datatype Instruction = CallSite(call: Call) | FenceLike | MemoryAccess(loc: Location)

  method GetModRefInfoInstrCall(aas: seq<Analysis>, i: Instruction, c: Call) returns (r: ModRefInfo)
    ensures i.CallSite? ==> (r.mod <==> CallCallBit(aas, i.call, c, true)) && (r.ref <==> CallCallBit(aas, i.call, c, false))
    ensures i.FenceLike? ==> r == MOD_REF
    ensures i.MemoryAccess? ==> (r.mod <==> r.ref) && (r.mod <==> !CallLoc(aas, c, i.loc).IsNoModRef())
  {
    match i
    case CallSite(call) =>
      r := GetModRefInfoCallCall(aas, call, c);
    case FenceLike =>
      r := MOD_REF;
    case MemoryAccess(loc) =>
      r := GetModRefInfoCallLoc(aas, c, loc);
      if r.IsNoModRef() {
        r := NO_MOD_REF;
      } else {
        r := r.(mod := true, ref := true);
      }
  }

  /** A call that touches what a memory instruction accesses is never called independent. */
  lemma InstrCallSound(w: World, aas: seq<Analysis>, loc: Location, c: Call)
    requires AllSound(w, aas) && (ModsLoc(w, c, loc) || RefsLoc(w, c, loc))
    ensures !CallLoc(aas, c, loc).IsNoModRef()
  {
    CallLocSound(w, aas, c, loc);
  }
}
