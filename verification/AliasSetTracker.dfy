/** The alias set tracker: a union-find of pointers with reference counts, must- and
    may-alias sets, and saturation into a single catch-all set. */
module AliasSetTrackers {
  import opened Wrappers
  import opened AliasSets
  import opened AliasSeparation
  import opened AliasInsertions
  import opened AliasAccesses

  /** Once saturated, the catch-all set is a may-alias set and every other set forwards
      straight to it. */
  ghost predicate SaturatedOk(s: State) {
    s.any.Some? ==>
      && s.any.value in s.sets && s.sets[s.any.value].alias == SetMayAlias && s.sets[s.any.value].forward.None?
      && forall t | t in s.sets && t != s.any.value :: s.sets[t].forward == s.any
  }

  class AliasSetTracker {
    const aa: Oracle
    const saturationThreshold: nat
    ghost const addr: Value -> int    // where the pointers point, for the separation property

    var sets: Sets
    var pointerMap: Pointers
    var nextId: nat
    var totalMayAliasSetSize: int
    var aliasAnyAS: Option<Id>
    ghost var root: map<Id, Id>
    // Whether the first pointer of a must-alias set no longer covers another one, after a growth,
    // a deletion or a merge, or a copy was made that does not fit the set of its original.
    ghost var disturbed: bool

    ghost function S(): State
      reads this
    {
      State(sets, pointerMap, root, nextId, aliasAnyAS, totalMayAliasSetSize)
    }

    /** For a sound analysis and an undisturbed history, overlapping pointers share a set. */
    ghost predicate SeparatedOk()
      reads this
    {
      Sound(aa, addr) && !disturbed ==> Separated(S(), addr)
    }

    ghost predicate Valid()
      reads this
    {
      Consistent(S(), None, None) && SaturatedOk(S()) && SeparatedOk()
    }

    constructor (analysis: Oracle, threshold: nat, ghost address: Value -> int)
      ensures Valid() && aa == analysis && saturationThreshold == threshold && addr == address
      ensures pointerMap == map[] && aliasAnyAS == None && !disturbed
    {
      aa, saturationThreshold, addr := analysis, threshold, address;
      sets, pointerMap, nextId, totalMayAliasSetSize, aliasAnyAS, root, disturbed := map[], map[], 0, 0, None, map[], false;
    }

    /** Drop a reference; the last one takes the set with it, and the reference it held. */
    method DropRef(id: Id, ghost newborn: Option<Id>)
      requires Consistent(S(), Some(id), newborn) && id in sets
      modifies this`sets, this`totalMayAliasSetSize, this`root
      ensures Consistent(S(), None, newborn) && Equivalent(old(S()), S())
      ensures forall t | t in old(sets) && t !in sets :: aliasAnyAS == Some(t) || (t <= id && aliasAnyAS != Some(id))
      ensures forall t | t in sets :: t in old(sets) && sets[t].forward == old(sets)[t].forward
      decreases if aliasAnyAS == Some(id) then 0 else id + 1
    {
      hide Consistent, Equivalent;
      ghost var s0 := S();
      SetOkAt(s0, Some(id), newborn, id);
      if sets[id].refCount > 1 {
        CountDown(s0, id, newborn);
        sets := sets[id := sets[id].(refCount := sets[id].refCount - 1)];
        assert S() == CountedDown(s0, id);
      } else {
        EraseLast(s0, id, newborn);
        var forward := sets[id].forward;
        totalMayAliasSetSize := totalMayAliasSetSize - MaySize(sets, id);
        sets, root := sets - {id}, root - {id};
        assert S() == Erased(s0, id);
        ghost var s1 := S();
        if forward.Some? {
          DropRef(forward.value, newborn);
          EquivalentTrans(s0, s1, S());
        }
      }
    }

    /** Find the set that a set finally forwards to, and shorten the chain on the way back. */
    method GetForwardedTarget(id: Id) returns (dest: Id)
      requires Consistent(S(), None, None) && id in sets
      modifies this`sets, this`totalMayAliasSetSize, this`root
      ensures Consistent(S(), None, None) && Equivalent(old(S()), S())
      ensures id in sets && dest in sets && id in root && root[id] == dest && sets[dest].forward.None?
      ensures sets[id].forward == if old(sets)[id].forward.None? then None else Some(dest)
      ensures forall t | t in old(sets) && t !in sets :: t < id || aliasAnyAS == Some(t)
      ensures forall t | t in sets && t > id :: t in old(sets) && sets[t].forward == old(sets)[t].forward
      ensures old(sets)[id].forward.None? ==> S() == old(S())
      decreases if aliasAnyAS == Some(id) then 0 else id + 1
    {
      hide Consistent, Equivalent;
      ghost var s0 := S();
      SetOkAt(s0, None, None, id);
      RootIsTarget(s0, None, None, id);
      EquivalentRefl(s0);
      if sets[id].forward.None? {
        return id;
      }
      var forward := sets[id].forward.value;
      SetOkAt(s0, None, None, forward);
      dest := GetForwardedTarget(forward);
      ghost var s1 := S();
      EquivalentAt(s0, s1, id);
      SetOkAt(s1, None, None, id);
      if dest != forward {
        PointStraightAt(id, dest, None);
        EquivalentTrans(s0, s1, S());
      }
    }

    /** Make a forwarding set forward straight to its target, and drop the reference to the
        set it forwarded to. */
    method PointStraightAt(id: Id, dest: Id, ghost newborn: Option<Id>)
      requires Consistent(S(), None, newborn) && id in sets && sets[id].forward.Some?
      requires id in root && root[id] == dest
      modifies this`sets, this`totalMayAliasSetSize, this`root
      ensures Consistent(S(), None, newborn) && Equivalent(old(S()), S())
      ensures id in sets && dest in sets && id in root && root[id] == dest && sets[dest].forward.None?
      ensures sets[id].forward == Some(dest)
      ensures forall t | t in old(sets) && t !in sets :: t < id || aliasAnyAS == Some(t)
      ensures forall t | t in sets && t != id :: t in old(sets) && sets[t].forward == old(sets)[t].forward
    {
      hide Consistent, Equivalent;
      ghost var s1 := S();
      SetOkAt(s1, None, newborn, id);
      RootIsTarget(s1, None, newborn, id);
      var forward := sets[id].forward.value;
      Redirect(s1, id, newborn);
      var sets1 := sets[dest := sets[dest].(refCount := sets[dest].refCount + 1)];
      sets := sets1[id := sets1[id].(forward := Some(dest))];
      assert S() == Redirected(s1, id, s1.root[id]);
      ghost var s2 := S();
      DropRef(forward, newborn);
      EquivalentTrans(s1, s2, S());
      SetOkAt(S(), None, newborn, id);
      EquivalentAt(s1, S(), id);
      EquivalentAt(s1, S(), dest);
    }

    /** The live set a pointer record resolves to; the record is updated to name it. */
    method GetAliasSet(v: Value) returns (id: Id)
      requires Consistent(S(), None, None) && v in pointerMap
      modifies this`sets, this`totalMayAliasSetSize, this`root, this`pointerMap
      ensures Consistent(S(), None, None) && Equivalent(old(S()), S())
      ensures v in pointerMap && pointerMap[v].set_ == id && id in sets && sets[id].forward.None?
    {
      hide Consistent, Equivalent;
      ghost var s0 := S();
      id := pointerMap[v].set_;
      SetOfEntry(s0, None, None, v);
      EquivalentRefl(s0);
      if sets[id].forward.Some? {
        var oldSet := id;
        id := GetForwardedTarget(oldSet);
        ghost var s1 := S();
        Rename(s1, v, None);
        sets := sets[id := sets[id].(refCount := sets[id].refCount + 1)];
        pointerMap := pointerMap[v := pointerMap[v].(set_ := id)];
        assert S() == Renamed(s1, v, id);
        ghost var s2 := S();
        EquivalentTrans(s0, s1, s2);
        DropRef(oldSet, None);
        EquivalentTrans(s0, s2, S());
        SetOfEntry(S(), None, None, v);
      }
    }

    /** Merge live set x into live set d. */
    method MergeSetIn(d: Id, x: Id, ghost newborn: Option<Id>)
      requires Consistent(S(), None, newborn) && newborn != Some(x)
      requires CanMerge(S(), d, x, SetMayAlias) && sets[x].ptrs != []
      requires Join(sets[d].alias, sets[x].alias) == SetMustAlias ==> sets[d].ptrs != []
      modifies this`sets, this`totalMayAliasSetSize, this`root
      ensures S() == Merged(old(S()), d, x, KindAfterMerge(aa, old(S()), d, x))
      ensures Consistent(S(), None, newborn)
      ensures BothAccessed(old(sets), sets, d, x)
    {
      hide Consistent, BothAccessed;
      ghost var s0 := S();
      var D, X := sets[d], sets[x];
      var alias := Join(D.alias, X.alias);
      FirstKnown(s0, newborn, x);
      if alias == SetMustAlias {
        // Two must-alias sets: one pair of pointers decides.
        FirstKnown(s0, newborn, d);
        var l, r := D.ptrs[0], X.ptrs[0];
        if aa(l, pointerMap[l].size, r, pointerMap[r].size) != MustAlias {
          alias := SetMayAlias;
        }
      }
      if alias == SetMayAlias {
        if D.alias == SetMustAlias {
          totalMayAliasSetSize := totalMayAliasSetSize + D.setSize;
        }
        if X.alias == SetMustAlias {
          totalMayAliasSetSize := totalMayAliasSetSize + X.setSize;
        }
      }
      sets := sets[d := MergedInto(D, X, alias)][x := MergedAway(X, d)];
      root := Reroot(root, x, d);
      assert totalMayAliasSetSize == s0.total + NewlyMay(D, X, alias);
      assert S() == Merged(s0, d, x, alias);
      MergeConsistent(s0, d, x, alias, newborn);
      MergeBits(s0, d, x, alias);
    }

    /** Whether a pointer may alias a member of a live set. */
    method AliasesPointer(id: Id, v: Value, size: nat) returns (r: bool)
      requires Consistent(S(), None, None) && id in sets && sets[id].forward.None? && sets[id].ptrs != []
      ensures r <==> Touches(aa, S(), id, v, size)
    {
      FirstKnown(S(), None, id);
      var set_ := sets[id];
      if set_.aliasAny {
        return true;
      }
      if set_.alias == SetMustAlias {
        var p := set_.ptrs[0];
        return aa(p, pointerMap[p].size, v, size) != NoAlias;
      }
      assert SetOk(S(), None, None, id);
      for i := 0 to |set_.ptrs|
        invariant forall j | 0 <= j < i :: set_.ptrs[j] in pointerMap && aa(v, size, set_.ptrs[j], pointerMap[set_.ptrs[j]].size) == NoAlias
      {
        var p := set_.ptrs[i];
        assert p in set_.ptrs;
        assert ResolvesTo(S(), p, id);
        if aa(v, size, p, pointerMap[p].size) != NoAlias {
          return true;
        }
      }
      return false;
    }

    /** Merge two touched sets; this disturbs the tracker only if its first pointer is empty. */
    method MergeTouched(d: Id, x: Id, ghost was: Pointers)
      requires Consistent(S(), None, None) && SameNames(pointerMap, was)
      requires CanMerge(S(), d, x, SetMayAlias) && sets[d].ptrs != [] && sets[x].ptrs != []
      modifies this`sets, this`totalMayAliasSetSize, this`root, this`disturbed
      ensures S() == Merged(old(S()), d, x, KindAfterMerge(aa, old(S()), d, x)) && Consistent(S(), None, None)
      ensures disturbed == (old(disturbed) ||
        (KindAfterMerge(aa, old(S()), d, x) == SetMustAlias && SmallerHead(WithSizes(old(S()), was), d, x)))
      ensures Sound(aa, addr) && old(Separated(WithSizes(S(), was), addr)) && !disturbed ==> Separated(WithSizes(S(), was), addr)
      ensures Sound(aa, addr) && old(Separated(WithSizes(S(), was), addr)) && !HasEmpty(was) ==> disturbed == old(disturbed)
    {
      hide Consistent, Separated, Sound, SmallerHead, SameNames, HasEmpty, Merged, KindAfterMerge;
      ghost var s0 := S();
      MergeSetIn(d, x, None);
      disturbed := disturbed || (KindAfterMerge(aa, s0, d, x) == SetMustAlias && SmallerHead(WithSizes(s0, was), d, x));
      if Sound(aa, addr) && Separated(WithSizes(s0, was), addr) {
        MergeKeeps(aa, addr, s0, was, d, x, None);
      }
    }

    /** Merge all live sets that a pointer may alias into the oldest of them. */
    method MergeAliasSetsForPointer(v: Value, size: nat, ghost was: Pointers) returns (found: Option<Id>)
      requires Consistent(S(), None, None) && aliasAnyAS.None? && SameNames(pointerMap, was)
      modifies this`sets, this`totalMayAliasSetSize, this`root, this`disturbed
      ensures (S(), found) == Gather(aa, old(S()), v, size, nextId)
      ensures Consistent(S(), None, None) && Gathered(aa, old(S()), S(), v, size, nextId, found)
      ensures old(disturbed) ==> disturbed
      ensures Sound(aa, addr) && old(Separated(WithSizes(S(), was), addr)) && !disturbed ==> Separated(WithSizes(S(), was), addr)
      ensures Sound(aa, addr) && old(Separated(WithSizes(S(), was), addr)) && !HasEmpty(was) ==> disturbed == old(disturbed)
    {
      hide Consistent, Separated, Sound, Touches, SmallerHead, SameNames, HasEmpty, Gather;
      ghost var s0 := S();
      found := None;
      var i := 0;
      NothingYet(aa, s0, v, size);
      while i < nextId
        invariant 0 <= i <= nextId && S().pm == s0.pm && S().nextId == s0.nextId && S().any == s0.any
        invariant Consistent(S(), None, None) && (S(), found) == Gather(aa, s0, v, size, i)
        invariant old(disturbed) ==> disturbed
        invariant Sound(aa, addr) && Separated(WithSizes(s0, was), addr) && !disturbed ==> Separated(WithSizes(S(), was), addr)
        invariant Sound(aa, addr) && Separated(WithSizes(s0, was), addr) && !HasEmpty(was) ==> disturbed == old(disturbed)
      {
        ghost var s1 := S();
        GatherOk(aa, s0, v, size, i);
        GatherNext(aa, s0, v, size, i);
        var touched := false;
        if i in sets && sets[i].forward.None? {
          SetOkAt(s1, None, None, i);
          NotEmpty(s1, None, i);
          touched := AliasesPointer(i, v, size);
        }
        if touched {
          if found.None? {
            found := Some(i);
          } else {
            SetOkAt(s1, None, None, found.value);
            NotEmpty(s1, None, found.value);
            MergeTouched(found.value, i, was);
          }
        }
        i := i + 1;
      }
      GatherOk(aa, s0, v, size, nextId);
    }

    /** Put a pointer that has no set yet into live set id. */
    method AddPointerTo(id: Id, v: Value, size: nat, knownMust: bool, ghost newborn: Option<Id>)
      requires Consistent(S(), None, newborn) && id in sets && sets[id].forward.None? && v !in pointerMap
      requires newborn.Some? ==> newborn == Some(id)
      modifies this`sets, this`totalMayAliasSetSize, this`pointerMap
      ensures S() == AfterAdd(aa, old(S()), id, v, size, knownMust)
      ensures Consistent(S(), None, None)
    {
      hide Consistent;
      ghost var s0 := S();
      var set_ := sets[id];
      var alias := set_.alias;
      if set_.alias == SetMustAlias && !knownMust && set_.ptrs != [] {
        FirstKnown(s0, newborn, id);
        var p := set_.ptrs[0];
        if aa(p, pointerMap[p].size, v, size) != MustAlias {
          alias := SetMayAlias;
          totalMayAliasSetSize := totalMayAliasSetSize + set_.setSize;
        } else {
          // The first pointer of a must-alias set takes on the largest size.
          ResizeConsistent(s0, p, size, newborn);
          if size > pointerMap[p].size {
            pointerMap := pointerMap[p := pointerMap[p].(size := size)];
          }
          assert S() == Resized(s0, p, size);
        }
      }
      ghost var s1 := if alias == SetMustAlias then S() else s0;
      pointerMap := pointerMap[v := PointerRec(id, size)];
      sets := sets[id := set_.(ptrs := set_.ptrs + [v], setSize := set_.setSize + 1, refCount := set_.refCount + 1, alias := alias)];
      if alias == SetMayAlias {
        totalMayAliasSetSize := totalMayAliasSetSize + 1;
      }
      AddConsistent(s1, id, v, size, alias, newborn);
      assert S() == Added(s1, id, v, size, alias);
    }

    /** The set a pointer that is not tracked yet belongs to: the touched sets merged, or a
        new set. */
    method Insert(v: Value, size: nat) returns (id: Id)
      requires Consistent(S(), None, None) && aliasAnyAS.None? && v !in pointerMap
      modifies this`sets, this`totalMayAliasSetSize, this`root, this`pointerMap, this`nextId, this`disturbed
      ensures Consistent(S(), None, None)
      ensures id in sets && sets[id].forward.None? && ResolvesTo(S(), v, id)
      ensures pointerMap.Keys == old(pointerMap).Keys + {v} && pointerMap[v].size == size
      ensures forall w | w in old(pointerMap) :: pointerMap[w].size >= old(pointerMap)[w].size
      ensures Inserted(aa, old(S()), S(), v, size) && S() == AfterInsert(aa, old(S()), v, size)
      ensures old(disturbed) ==> disturbed
      ensures Sound(aa, addr) && old(Separated(S(), addr)) && !disturbed ==> Separated(S(), addr)
      ensures Sound(aa, addr) && old(Separated(S(), addr)) && !HasEmpty(old(pointerMap)) ==> disturbed == old(disturbed)
    {
      hide Consistent, Separated, Sound, Touches, Gathered, Gather, AfterAdd, Inserted, HasEmpty;
      ghost var s0 := S();
      var found := MergeAliasSetsForPointer(v, size, pointerMap);
      ghost var s1 := S();
      assert s0 == WithSizes(s0, s0.pm) && s1 == WithSizes(s1, s1.pm);
      GatheredFacts(aa, addr, s0, s1, v, size, found);
      if found.Some? {
        id := found.value;
        AddPointerTo(id, v, size, false, None);
        SetOkAt(s1, None, None, id);
        if Sound(aa, addr) && Separated(s1, addr) {
          AfterAddSeparated(aa, addr, s1, id, v, size, None);
        }
        AfterAddGroups(aa, s1, id, v, size);
      } else {
        id := nextId;
        GrowConsistent(s1, NEW_SET);
        NotRoot(s1, id);
        sets, root, nextId := sets[id := NEW_SET], root[id := id], nextId + 1;
        ghost var s2 := S();
        assert s2 == Grown(s1, NEW_SET);
        AddPointerTo(id, v, size, false, Some(id));
        GrownApart(addr, s1, v, size, id);
        if Sound(aa, addr) && Separated(s1, addr) {
          GrowSeparated(s1, NEW_SET, addr);
          AfterAddSeparated(aa, addr, s2, id, v, size, Some(id));
        }
        AfterAddGroups(aa, s2, id, v, size);
      }
      InsertedAfterAdd(aa, s0, s1, S(), id, v, size, found);
    }

    /** Record a larger access for a tracked pointer, and join the sets it now touches. */
    method Grow(v: Value, size: nat)
      requires Valid() && v in pointerMap && size > pointerMap[v].size
      modifies this`sets, this`totalMayAliasSetSize, this`root, this`pointerMap, this`disturbed
      ensures Valid() && (old(disturbed) ==> disturbed)
      ensures pointerMap == old(pointerMap)[v := old(pointerMap)[v].(size := size)]
      ensures pointerMap[v].set_ in root
      ensures AccessJoined(old(S()), S(), None, false, false)
      ensures Sound(aa, addr) && !old(disturbed) && !HasEmpty(old(pointerMap)) && disturbed ==> Outgrows(S(), addr, v, root[pointerMap[v].set_])
    {
      hide Consistent, Separated, Sound, Touches, Gathered, SaturatedOk, Outgrows, HasEmpty, AccessJoined;
      ghost var s0 := S();
      JoinedFromStart(s0);
      JoinedThenResized(s0, s0, v, size);
      ResizeConsistent(s0, v, size, None);
      ResizeSaturated(s0, v, size);
      pointerMap := pointerMap[v := pointerMap[v].(size := size)];
      ghost var s1 := S();
      assert s1 == Resized(s0, v, size);
      if aliasAnyAS.None? {
        assert s0 == WithSizes(s1, s0.pm);
        GatherJoins(aa, s1, s0, v, size, nextId);
        ghost var found := MergeAliasSetsForPointer(v, size, s0.pm);
        GatheredKeys(s1, S(), v, size);
        NotSaturated(S());
        SetOfEntry(S(), None, None, v);
        ghost var t := root[pointerMap[v].set_];
        assert ResolvesTo(S(), v, t);
        if Sound(aa, addr) && !disturbed {
          GrowthSeparated(aa, s0, addr, v, size, S(), found, t);
          SeparatedIs(S(), addr);
        }
        disturbed := disturbed || Outgrows(S(), addr, v, t);
      } else {
        SaturatedSeparated(s1);
        SetOfEntry(S(), None, None, v);
      }
    }

    /** The alias set of a tracked pointer; a larger access may join more sets first. */
    method Revisit(v: Value, size: nat) returns (id: Id)
      requires Valid() && v in pointerMap
      modifies this`sets, this`totalMayAliasSetSize, this`root, this`pointerMap, this`disturbed
      ensures Valid()
      ensures id in sets && sets[id].forward.None? && ResolvesTo(S(), v, id)
      ensures pointerMap.Keys == old(pointerMap).Keys && pointerMap[v].size >= size
      ensures forall w | w in old(pointerMap) :: pointerMap[w].size >= old(pointerMap)[w].size
      ensures size <= old(pointerMap)[v].size ==> Equivalent(old(S()), S()) && disturbed == old(disturbed)
      ensures old(disturbed) ==> disturbed
      ensures AccessJoined(old(S()), S(), None, false, false)
      ensures Sound(aa, addr) && !old(disturbed) && !HasEmpty(old(pointerMap)) ==> (disturbed <==> Outgrows(S(), addr, v, id))
    {
      hide Consistent, Separated, Sound, Equivalent, SaturatedOk, Outgrows, HasEmpty, AccessJoined;
      JoinedFromStart(S());
      if size > pointerMap[v].size {
        Grow(v, size);
      }
      ghost var s1 := S();
      id := GetAliasSet(v);
      JoinedThenEquivalent(old(S()), s1, S());
      SizesStay(s1, S());
      SaturatedStays(s1, S(), v);
      ResolvedSet(S(), v);
      if Sound(aa, addr) && !disturbed {
        EquivalentSeparated(s1, S(), addr);
        NotOutgrown(S(), addr, v, id);
      }
      EquivalentOutgrows(s1, S(), v, id);
    }

    lemma EquivalentOutgrows(s: State, s': State, v: Value, id: Id)
      requires Consistent(s, None, None) && Equivalent(s, s') && v in s.pm && v in s'.pm && id in s'.sets && ResolvesTo(s', v, id)
      ensures s.pm[v].set_ in s.root && (Outgrows(s', addr, v, id) <==> Outgrows(s, addr, v, s.root[s.pm[v].set_]))
    {
      hide Consistent, Outgrows;
      SetOfEntry(s, None, None, v);
      assert ResolvesTo(s, v, id);
      EquivalentAt(s, s', id);
      if s.sets[id].ptrs != [] {
        FirstKnown(s, None, id);
      }
      OutgrowsStays(s, s', addr, v, id);
    }

    /** Add a pointer to the catch-all set. */
    method AddSaturated(v: Value, size: nat) returns (id: Id)
      requires Valid() && aliasAnyAS.Some? && v !in pointerMap
      modifies this`sets, this`totalMayAliasSetSize, this`pointerMap
      ensures Valid()
      ensures id in sets && sets[id].forward.None? && ResolvesTo(S(), v, id)
      ensures pointerMap.Keys == old(pointerMap).Keys + {v} && pointerMap[v].size >= size
      ensures forall w | w in old(pointerMap) :: pointerMap[w].size >= old(pointerMap)[w].size
      ensures AccessJoined(old(S()), S(), None, false, false)
    {
      hide Consistent, Separated, Sound, AccessJoined;
      ghost var s0 := S();
      JoinedFromStart(s0);
      id := aliasAnyAS.value;
      SetOkAt(s0, None, None, id);
      JoinedThenAdded(s0, s0, aa, id, v, size, false);
      AddPointerTo(id, v, size, false, None);
      SetOkAt(s0, None, None, id);
      AfterAddGroups(aa, s0, id, v, size);
      SaturatedSeparated(S());
    }

    /** The alias set a pointer lives in; a pointer that is not tracked yet is added.  Without
        empty accesses the history is disturbed exactly when a tracked pointer outgrows the
        first one of its set. */
    method GetAliasSetForPointer(v: Value, size: nat) returns (id: Id)
      requires Valid()
      modifies this`sets, this`totalMayAliasSetSize, this`root, this`pointerMap, this`nextId, this`disturbed
      ensures Valid()
      ensures id in sets && sets[id].forward.None? && ResolvesTo(S(), v, id)
      ensures pointerMap.Keys == old(pointerMap).Keys + {v} && pointerMap[v].size >= size
      ensures forall w | w in old(pointerMap) :: pointerMap[w].size >= old(pointerMap)[w].size
      ensures old(disturbed) ==> disturbed
      ensures Sound(aa, addr) && !old(disturbed) && !HasEmpty(old(pointerMap)) ==>
        (disturbed <==> v in old(pointerMap) && Outgrows(S(), addr, v, id))
      ensures v !in old(pointerMap) && aliasAnyAS.None? ==> Inserted(aa, old(S()), S(), v, size)
      ensures v in old(pointerMap) && size <= old(pointerMap)[v].size ==> Equivalent(old(S()), S()) && disturbed == old(disturbed)
      ensures AccessJoined(old(S()), S(), None, false, false)
    {
      hide Consistent, Separated, Sound, Inserted, Equivalent, SaturatedOk, Outgrows, HasEmpty, AccessJoined, AfterInsert;
      if v in pointerMap {
        id := Revisit(v, size);
      } else if aliasAnyAS.Some? {
        id := AddSaturated(v, size);
      } else {
        InsertJoins(aa, S(), v, size);
        id := Insert(v, size);
        NotSaturated(S());
      }
    }

    /** A saturated tracker is separated, whatever happened before. */
    lemma SaturatedSeparated(s: State)
      requires Consistent(s, None, None) && SaturatedOk(s) && s.any.Some?
      ensures Separated(s, addr)
    {
      var a := s.any.value;
      forall t ensures HeadCovers(s, addr, t) {
        if t in s.sets && t != a {
          SetOkAt(s, None, None, t);
        }
      }
      forall v, w | Overlap(s, addr, v, w) ensures SameSet(s, v, w) {
        SetOkAt(s, None, None, a);
        SetOkAt(s, None, None, s.pm[v].set_);
        SetOkAt(s, None, None, s.pm[w].set_);
        assert ResolvesTo(s, v, a) && ResolvesTo(s, w, a);
      }
    }

    lemma NotSaturated(s: State)
      requires s.any.None?
      ensures SaturatedOk(s)
    {
    }

    lemma ResizeSaturated(s: State, v: Value, size: nat)
      requires SaturatedOk(s) && v in s.pm
      ensures SaturatedOk(Resized(s, v, size))
    {
    }

    lemma GatheredKeys(s: State, s': State, v: Value, size: nat)
      requires exists found :: Gathered(aa, s, s', v, size, s.nextId, found)
      ensures s'.pm == s.pm && s'.any == s.any
    {
    }

    /** A pointer record that names a live set resolves to it. */
    lemma ResolvedSet(s: State, v: Value)
      requires Consistent(s, None, None) && v in s.pm && s.sets[s.pm[v].set_].forward.None?
      ensures ResolvesTo(s, v, s.pm[v].set_)
    {
      SetOkAt(s, None, None, s.pm[v].set_);
    }

    /** Equivalent states are saturated together, as long as a pointer is left. */
    lemma SaturatedStays(s: State, s': State, v: Value)
      requires Consistent(s, None, None) && Consistent(s', None, None) && SaturatedOk(s) && Equivalent(s, s')
      requires v in s'.pm
      ensures SaturatedOk(s')
    {
      if s'.any.Some? {
        var a := s'.any.value;
        SetOkAt(s, None, None, a);
        forall t | t in s'.sets && t != a ensures s'.sets[t].forward == s'.any {
          EquivalentAt(s, s', t);
          SetOkAt(s, None, None, t);
        }
        SetOkAt(s', None, None, s'.pm[v].set_);
        assert a in s'.sets;
        EquivalentAt(s, s', a);
      }
    }

    /** The catch-all set of a saturated tracker, while the other sets are redirected to it. */
    ghost predicate CatchAll(id: Id)
      reads this
    {
      && Consistent(S(), None, Some(id)) && nextId == id + 1 && aliasAnyAS == Some(id)
      && id in sets && sets[id].forward.None? && sets[id].alias == SetMayAlias && sets[id].mod && sets[id].ref
    }

    method NewCatchAll() returns (id: Id)
      requires Valid() && aliasAnyAS.None?
      modifies this`sets, this`root, this`nextId, this`aliasAnyAS
      ensures CatchAll(id) && id == old(nextId)
      ensures forall t :: t in sets <==> t in old(sets) || t == id
    {
      hide Consistent;
      ghost var s0 := S();
      var any := NEW_SET.(alias := SetMayAlias, mod := true, ref := true, aliasAny := true);
      GrowConsistent(s0, any);
      id := nextId;
      sets, root, nextId := sets[id := any], root[id := id], nextId + 1;
      aliasAnyAS := Some(id);
      assert S() == Grown(s0, any);
    }

    /** Redirect one set to the catch-all set, or merge it in if it is live. */
    method Absorb(i: Id, id: Id)
      requires CatchAll(id) && i in sets && i < id
      requires forall t | t in sets && 0 <= t < i :: sets[t].forward == Some(id)
      modifies this`sets, this`totalMayAliasSetSize, this`root
      ensures CatchAll(id)
      ensures forall t | t in sets && 0 <= t <= i :: sets[t].forward == Some(id)
      ensures forall t | t in old(sets) && t >= i :: t in sets
      ensures forall t | t in sets :: t in old(sets)
    {
      hide Consistent, Equivalent;
      ghost var s1 := S();
      SetOkAt(s1, None, Some(id), i);
      if sets[i].forward.Some? {
        SetOkAt(s1, None, Some(id), sets[i].forward.value);
        SetOkAt(s1, None, Some(id), id);
        PointStraightAt(i, id, Some(id));
        EquivalentAt(s1, S(), id);
      } else {
        NotEmpty(s1, Some(id), i);
        MergeSetIn(id, i, Some(id));
      }
    }

    /** Saturate: forward every set to a new catch-all set.  Every set is still there when its
        turn comes, since a set only forwards to older ones, and dropping a reference only
        removes older sets. */
    method MergeAllAliasSets() returns (id: Id)
      requires Valid() && aliasAnyAS.None? && totalMayAliasSetSize > saturationThreshold
      modifies this`sets, this`totalMayAliasSetSize, this`root, this`nextId, this`aliasAnyAS
      ensures Valid() && aliasAnyAS == Some(id) && pointerMap != map[]
      ensures id in sets && forall v | v in pointerMap :: ResolvesTo(S(), v, id)
      ensures sets[id].forward.None? && sets[id].mod && sets[id].ref
    {
      hide Consistent, Separated, Sound, Equivalent;
      ghost var someone := SomePointer(S());
      var before := sets;
      id := NewCatchAll();
      var i := 0;
      while i < id
        invariant 0 <= i <= id && CatchAll(id)
        invariant forall t | t in sets && 0 <= t < i :: sets[t].forward == Some(id)
        invariant forall t | t in before && t >= i :: t in sets
        invariant forall t | t in sets :: t in before || t == id
      {
        if i in before {
          Absorb(i, id);
        }
        i := i + 1;
      }
      AllForward(S(), id, someone);
      SaturatedSeparated(S());
    }

    /** A tracker with something to count has a pointer. */
    lemma SomePointer(s: State) returns (v: Value)
      requires Consistent(s, None, None) && s.total > 0
      ensures v in s.pm
    {
      SumMayEmpty(s.sets, s.nextId);
      var t :| t in s.sets && s.sets[t].setSize > 0;
      SetOkAt(s, None, None, t);
      v := HasMember(s, None, t);
    }

    lemma AllForward(s: State, a: Id, someone: Value)
      requires Consistent(s, None, Some(a)) && s.any == Some(a) && someone in s.pm && s.nextId == a + 1
      requires a in s.sets && s.sets[a].forward.None? && s.sets[a].alias == SetMayAlias
      requires forall t | t in s.sets && 0 <= t < a :: s.sets[t].forward == Some(a)
      ensures Consistent(s, None, None) && SaturatedOk(s)
      ensures forall v | v in s.pm :: ResolvesTo(s, v, a)
    {
      forall t | t in s.sets ensures t == a || s.sets[t].forward == s.any {
        SetOkAt(s, None, Some(a), t);
      }
      forall v | v in s.pm ensures ResolvesTo(s, v, a) {
        SetOkAt(s, None, Some(a), s.pm[v].set_);
        SetOkAt(s, None, Some(a), a);
      }
      SetOkAt(s, None, Some(a), a);
      RefsNamed(s.sets, s.pm, a);
      assert s.pm[someone].set_ in s.sets;
      assert s.sets[a].refCount > 0;
      forall t | t in s.sets ensures SetOk(s, None, None, t) {
        SetOkAt(s, None, Some(a), t);
      }
    }

    /** Track an access through a pointer: the public entry point. */
    method AddPointer(v: Value, size: nat, mod: bool, ref: bool) returns (id: Id)
      requires Valid()
      modifies this`sets, this`totalMayAliasSetSize, this`root, this`pointerMap, this`nextId, this`disturbed, this`aliasAnyAS
      ensures Valid()
      ensures id in sets && sets[id].forward.None? && ResolvesTo(S(), v, id)
      ensures pointerMap.Keys == old(pointerMap).Keys + {v} && pointerMap[v].size >= size
      ensures forall w | w in old(pointerMap) :: pointerMap[w].size >= old(pointerMap)[w].size
      ensures old(disturbed) ==> disturbed
      ensures aliasAnyAS.None? && Sound(aa, addr) && !old(disturbed) && !HasEmpty(old(pointerMap)) ==>
        (disturbed <==> v in old(pointerMap) && Outgrows(S(), addr, v, id))
      ensures aliasAnyAS.None? ==> totalMayAliasSetSize <= saturationThreshold && |MayPointers(S())| <= saturationThreshold
      ensures aliasAnyAS.None? && v !in old(pointerMap) ==> Inserted(aa, old(S()), S(), v, size)
      ensures aliasAnyAS.Some? ==> aliasAnyAS == Some(id) && forall w | w in pointerMap :: ResolvesTo(S(), w, id)
      ensures (mod ==> sets[id].mod) && (ref ==> sets[id].ref)
      ensures AccessKept(old(S()), S())
      ensures aliasAnyAS == old(aliasAnyAS) ==> AccessJoined(old(S()), S(), Some(id), mod, ref)
      ensures aliasAnyAS != old(aliasAnyAS) ==> sets[id].mod && sets[id].ref
    {
      hide Consistent, Separated, Sound, Inserted, Equivalent, SaturatedOk, Outgrows, HasEmpty, AccessJoined, AccessKept, MayPointers;
      ghost var s0 := S();
      id := GetAliasSetForPointer(v, size);
      SetAccess(id, mod, ref, s0, v, size);
      JoinedKeeps(s0, S(), Some(id), mod, ref);
      if aliasAnyAS.None? && totalMayAliasSetSize > saturationThreshold {
        id := MergeAllAliasSets();
        CatchAllKeeps(s0, S(), id);
      }
      MayPointersCounted(S());
      if aliasAnyAS.Some? {
        AllInCatchAll(S(), v, id);
      }
    }

    method SetAccess(id: Id, mod: bool, ref: bool, ghost s0: State, ghost v: Value, ghost size: nat)
      requires Valid() && id in sets && ResolvesTo(S(), v, id)
      modifies this`sets
      ensures Valid() && ResolvesTo(S(), v, id)
      ensures id in sets && sets[id].forward == old(sets)[id].forward && (mod ==> sets[id].mod) && (ref ==> sets[id].ref)
      ensures old(Inserted(aa, s0, S(), v, size)) ==> Inserted(aa, s0, S(), v, size)
      ensures old(AccessJoined(s0, S(), None, false, false)) ==> AccessJoined(s0, S(), Some(id), mod, ref)
      ensures Outgrows(S(), addr, v, id) == old(Outgrows(S(), addr, v, id))
    {
      hide Consistent, Separated, Sound, Inserted, SaturatedOk, AccessJoined;
      ghost var s1 := S();
      sets := sets[id := sets[id].(mod := sets[id].mod || mod, ref := sets[id].ref || ref)];
      assert S() == WithAccess(s1, id, mod, ref);
      AccessOnly(s0, s1, id, mod, ref, v, size);
      if AccessJoined(s0, s1, None, false, false) {
        JoinedThenAccessed(s0, s1, id, mod, ref);
      }
    }

    lemma JoinedThenAccessed(s0: State, s: State, id: Id, mod: bool, ref: bool)
      requires AccessJoined(s0, s, None, false, false) && id in s.sets
      ensures AccessJoined(s0, WithAccess(s, id, mod, ref), Some(id), mod, ref)
    {
      var s' := WithAccess(s, id, mod, ref);
      forall w, t ensures ResolvesTo(s', w, t) <==> ResolvesTo(s, w, t) {}
      hide Modified, Referenced, Volatile;
      forall t | t in s'.sets && s'.sets[t].forward.None? ensures t in s.sets && s.sets[t].forward.None? {}
    }

    /** Once saturated, every pointer is in the one set that counts as modified and referenced. */
    lemma CatchAllKeeps(s0: State, s: State, id: Id)
      requires id in s.sets && s.sets[id].mod && s.sets[id].ref && s0.pm.Keys <= s.pm.Keys
      requires forall w | w in s.pm :: ResolvesTo(s, w, id)
      ensures AccessKept(s0, s)
    {
      forall w | w in s0.pm ensures Modified(s, w) && Referenced(s, w) {
        assert ResolvesTo(s, w, id);
      }
    }

    function WithAccess(s: State, id: Id, mod: bool, ref: bool): State
      requires id in s.sets
    {
      s.(sets := s.sets[id := s.sets[id].(mod := s.sets[id].mod || mod, ref := s.sets[id].ref || ref)])
    }

    lemma AccessOnly(s0: State, s: State, id: Id, mod: bool, ref: bool, v: Value, size: nat)
      requires Consistent(s, None, None) && SaturatedOk(s) && id in s.sets
      ensures var s' := WithAccess(s, id, mod, ref);
        && Consistent(s', None, None) && SaturatedOk(s') && (Separated(s, addr) ==> Separated(s', addr))
        && (Inserted(aa, s0, s, v, size) ==> Inserted(aa, s0, s', v, size))
        && (ResolvesTo(s, v, id) ==> ResolvesTo(s', v, id))
    {
      var s' := WithAccess(s, id, mod, ref);
      forall w, t ensures ResolvesTo(s', w, t) <==> ResolvesTo(s, w, t) {}
      forall t | t in s'.sets ensures SetOk(s', None, None, t) {
        SetOkAt(s, None, None, t);
        RefsAfterSet(s.sets, s'.sets, s.pm, id, t);
      }
      SumMaySame(s.sets, s'.sets, s.nextId);
      forall p, q ensures SameSet(s', p, q) <==> SameSet(s, p, q) {}
      if Separated(s, addr) {
        forall t ensures HeadCovers(s', addr, t) {
          assert HeadCovers(s, addr, t);
        }
        forall p, q | Overlap(s', addr, p, q) ensures SameSet(s', p, q) {
          assert Overlap(s, addr, p, q);
        }
      }
    }

    lemma AllInCatchAll(s: State, v: Value, id: Id)
      requires Consistent(s, None, None) && SaturatedOk(s) && s.any.Some? && ResolvesTo(s, v, id)
      ensures s.any == Some(id) && forall w | w in s.pm :: ResolvesTo(s, w, id)
    {
      var a := s.any.value;
      SetOkAt(s, None, None, a);
      forall w | w in s.pm ensures ResolvesTo(s, w, a) {
        SetOkAt(s, None, None, s.pm[w].set_);
      }
    }

    /** Stop tracking a pointer.  A saturated tracker whose last pointer goes is left with a
        catch-all set that is gone; otherwise the tracker stays valid. */
    method DeleteValue(v: Value)
      requires Valid()
      modifies this`sets, this`totalMayAliasSetSize, this`root, this`pointerMap, this`disturbed
      ensures Consistent(S(), None, None) && SeparatedOk()
      ensures pointerMap.Keys == old(pointerMap).Keys - {v}
      ensures forall w | w in pointerMap :: pointerMap[w].size == old(pointerMap)[w].size
      ensures forall p, q | p in pointerMap && q in pointerMap :: SameSet(S(), p, q) <==> old(SameSet(S(), p, q))
      ensures disturbed == (old(disturbed) || (v in old(pointerMap) && old(NextOutgrown(S(), addr, v))))
      ensures v in old(pointerMap) ==> (Valid() <==> aliasAnyAS.None? || pointerMap != map[])
      ensures AccessSame(old(S()), S(), v, v)
    {
      hide Consistent, Separated, Sound, Equivalent, SaturatedOk, NextOutgrown, AccessSame;
      if v !in pointerMap {
        NoChange(S(), v);
        return;
      }
      ghost var s0 := S();
      disturbed := disturbed || NextOutgrown(s0, addr, v);
      var id := GetAliasSet(v);
      ghost var s1 := S();
      SizesStay(s0, s1);
      NextOutgrownStays(s0, s1, v);
      if Sound(aa, addr) && !disturbed {
        EquivalentSeparated(s0, s1, addr);
        DeleteSeparated(s1, addr, v);
      }
      SaturatedStays(s0, s1, v);
      Unlink(id, v);
      ghost var s2 := S();
      DropRef(id, None);
      if Sound(aa, addr) && !disturbed {
        EquivalentSeparated(s2, S(), addr);
      }
      DeletedGroups(s0, s1, s2, S(), v);
      DeletedAccess(s0, s1, s2, S(), v);
      SaturatedAfterDelete(s1, S(), v);
    }

    /** Take a pointer off the list of its set.  The count of a must-alias set is left alone. */
    method Unlink(id: Id, v: Value)
      requires Consistent(S(), None, None) && v in pointerMap && pointerMap[v].set_ == id && id in sets && sets[id].forward.None?
      modifies this`sets, this`totalMayAliasSetSize, this`pointerMap
      ensures S() == Deleted(old(S()), v) && id in sets
      ensures Consistent(S(), Some(id), None)
    {
      hide Consistent;
      ghost var s1 := S();
      DeleteConsistent(s1, v);
      if sets[id].alias == SetMayAlias {
        sets := sets[id := sets[id].(ptrs := Without(sets[id].ptrs, v), setSize := sets[id].setSize - 1)];
        totalMayAliasSetSize := totalMayAliasSetSize - 1;
      } else {
        sets := sets[id := sets[id].(ptrs := Without(sets[id].ptrs, v))];
      }
      pointerMap := pointerMap - {v};
      assert S() == Deleted(s1, v);
    }

    lemma NextOutgrownStays(s: State, s': State, v: Value)
      requires Consistent(s, None, None) && Consistent(s', None, None) && Equivalent(s, s') && v in s.pm
      ensures NextOutgrown(s', addr, v) <==> NextOutgrown(s, addr, v)
    {
      hide Outgrown;
      SizesStay(s, s');
      SetOfEntry(s', None, None, v);
      var t := s'.root[s'.pm[v].set_];
      RootIsTarget(s', None, None, s'.pm[v].set_);
      assert ResolvesTo(s', v, t) && ResolvesTo(s, v, t);
      EquivalentAt(s, s', t);
      OutgrownSame(s.pm, s'.pm, addr, Without(s.sets[t].ptrs, v));
    }

    lemma DeletedGroups(s0: State, s1: State, s2: State, s3: State, v: Value)
      requires Equivalent(s0, s1) && Equivalent(s2, s3)
      requires v in s1.pm && s1.pm[v].set_ in s1.sets && s2 == Deleted(s1, v)
      ensures s3.pm.Keys == s0.pm.Keys - {v} && forall w | w in s3.pm :: w in s0.pm && s3.pm[w].size == s0.pm[w].size
      ensures forall p, q | p in s3.pm && q in s3.pm :: SameSet(s3, p, q) <==> SameSet(s0, p, q)
    {
      SizesStay(s0, s1);
      SizesStay(s2, s3);
      forall w, t ensures ResolvesTo(s3, w, t) <==> w != v && ResolvesTo(s0, w, t) {
        assert ResolvesTo(s2, w, t) <==> w != v && ResolvesTo(s1, w, t);
      }
    }

    lemma DeletedAccess(s0: State, s1: State, s2: State, s3: State, v: Value)
      requires Equivalent(s0, s1) && Equivalent(s2, s3) && Consistent(s3, None, None)
      requires v in s1.pm && s1.pm[v].set_ in s1.sets && s2 == Deleted(s1, v)
      ensures AccessSame(s0, s3, v, v)
    {
      hide Consistent;
      forall w, t ensures ResolvesTo(s3, w, t) <==> w != v && ResolvesTo(s0, w, t) {
        assert ResolvesTo(s2, w, t) <==> w != v && ResolvesTo(s1, w, t);
      }
      forall t | t in s3.sets && s3.sets[t].forward.None? ensures SameBits(s0, s3, t) {
        EquivalentAt(s2, s3, t);
        EquivalentAt(s0, s1, t);
      }
      SameAccess(s0, s3, v, v);
    }

    lemma NoChange(s: State, v: Value)
      ensures AccessSame(s, s, v, v)
    {
    }

    lemma SomeKey<K, V>(pm: map<K, V>) returns (w: K)
      requires pm != map[]
      ensures w in pm
    {
      w :| w in pm;
    }

    /** After a deletion the catch-all set is still there exactly if some pointer is. */
    lemma SaturatedAfterDelete(s: State, s': State, v: Value)
      requires Consistent(s, None, None) && SaturatedOk(s) && Consistent(s', None, None)
      requires v in s.pm && s.pm[v].set_ in s.sets && Equivalent(Deleted(s, v), s')
      ensures SaturatedOk(s') <==> s'.any.None? || s'.pm != map[]
    {
      if s'.any.Some? {
        var a := s'.any.value;
        if s'.pm == map[] {
          if a in s'.sets {
            SetOkAt(s', None, None, a);
            var w := HasMember(s', None, a);
          }
        } else {
          var w := SomeKey(s'.pm);
          SetOkAt(s, None, None, a);
          forall t | t in s'.sets && t != a ensures s'.sets[t].forward == s'.any {
            EquivalentAt(Deleted(s, v), s', t);
            SetOkAt(s, None, None, t);
          }
          SetOkAt(s', None, None, s'.pm[w].set_);
          EquivalentAt(Deleted(s, v), s', a);
        }
      }
    }

    /** Track a copy of a tracked pointer: it joins the set of the original. */
    method CopyValue(from: Value, to: Value)
      requires Valid()
      modifies this`sets, this`totalMayAliasSetSize, this`root, this`pointerMap, this`disturbed
      ensures Valid()
      ensures from !in old(pointerMap) || to in old(pointerMap) ==> pointerMap == old(pointerMap)
      ensures from in old(pointerMap) && to !in old(pointerMap) ==>
        && pointerMap.Keys == old(pointerMap).Keys + {to} && pointerMap[to].size == old(pointerMap)[from].size
        && (forall w, t :: ResolvesTo(S(), w, t) <==> old(ResolvesTo(S(), if w == to then from else w, t)))
      ensures disturbed ==
        (old(disturbed) || (from in old(pointerMap) && to !in old(pointerMap) && !old(CopyFits(S(), addr, from, to))))
      ensures Sound(aa, addr) && !old(disturbed) && addr(to) == addr(from) ==> !disturbed
      ensures AccessSame(old(S()), S(), to, if to in old(pointerMap) then to else from)
    {
      hide Consistent, Separated, Sound, Equivalent, SaturatedOk, CopyFits, FitsSet, AccessSame;
      if from !in pointerMap || to in pointerMap {
        NothingCopied(S(), from, to);
        return;
      }
      ghost var s0 := S();
      if Sound(aa, addr) && !disturbed && addr(to) == addr(from) {
        SetOfEntry(s0, None, None, from);
        RootIsTarget(s0, None, None, pointerMap[from].set_);
        EqualCopyFits(s0, addr, from, to, root[pointerMap[from].set_]);
      }
      disturbed := disturbed || !CopyFits(s0, addr, from, to);
      var id := GetAliasSet(from);
      ghost var s1 := S();
      SizesStay(s0, s1);
      SaturatedStays(s0, s1, from);
      ResolvedSet(s1, from);
      SetOkAt(s1, None, None, id);
      EquivalentAt(s0, s1, id);
      CopyFitsStays(s0, s1, addr, from, to, id);
      AddPointerTo(id, to, pointerMap[from].size, true, None);
      if Sound(aa, addr) && !disturbed {
        EquivalentSeparated(s0, s1, addr);
        CopySeparated(s1, from, to, id);
      }
      CopyGroups(s0, s1, from, to, id);
      CopyAccess(s0, s1, from, to, id);
    }

    lemma NothingCopied(s: State, from: Value, to: Value)
      requires from !in s.pm || to in s.pm
      ensures AccessSame(s, s, to, if to in s.pm then to else from)
    {
    }

    lemma CopyAccess(s0: State, s1: State, from: Value, to: Value, id: Id)
      requires Equivalent(s0, s1) && SaturatedOk(s1) && id in s1.sets && id in s1.root && s1.root[id] == id
      requires ResolvesTo(s1, from, id) && to !in s1.pm
      requires Consistent(AfterAdd(aa, s1, id, to, s1.pm[from].size, true), None, None)
      ensures AccessSame(s0, AfterAdd(aa, s1, id, to, s1.pm[from].size, true), to, from)
    {
      hide Consistent;
      var s2 := AfterAdd(aa, s1, id, to, s1.pm[from].size, true);
      CopyGroups(s0, s1, from, to, id);
      forall t | t in s2.sets && s2.sets[t].forward.None? ensures SameBits(s0, s2, t) {
        EquivalentAt(s0, s1, t);
      }
      SameAccess(s0, s2, to, from);
    }

    lemma CopySeparated(s: State, from: Value, to: Value, id: Id)
      requires Consistent(s, None, None) && Separated(s, addr) && ResolvesTo(s, from, id) && id in s.sets
      requires to !in s.pm && s.sets[id].forward.None?
      ensures Separated(AfterAdd(aa, s, id, to, s.pm[from].size, true), addr) <==> FitsSet(s, addr, id, to, s.pm[from].size)
    {
      SetOkAt(s, None, None, id);
      assert from in s.sets[id].ptrs;
      FirstKnown(s, None, id);
      assert HeadCovers(s, addr, id);
      AddKnownSeparated(s, addr, id, to, s.pm[from].size);
    }

    lemma CopyGroups(s0: State, s1: State, from: Value, to: Value, id: Id)
      requires Equivalent(s0, s1) && SaturatedOk(s1) && id in s1.sets && id in s1.root && s1.root[id] == id
      requires ResolvesTo(s1, from, id) && to !in s1.pm
      ensures var s2 := AfterAdd(aa, s1, id, to, s1.pm[from].size, true);
        && SaturatedOk(s2) && s2.pm.Keys == s0.pm.Keys + {to} && s2.pm[to].size == s1.pm[from].size
        && (forall w, t :: ResolvesTo(s2, w, t) <==> ResolvesTo(s0, if w == to then from else w, t))
    {
      AddedGroups(aa, s1, s1, id, to, s1.pm[from].size, s1.sets[id].alias);
      forall w, t ensures ResolvesTo(s1, w, t) <==> ResolvesTo(s0, w, t) {}
    }

    /** The purpose of the tracker: with a sound analysis and an undisturbed history, or once it
        is saturated, two tracked pointers whose accesses share a byte are in the same set. */
    lemma OverlappingShareASet(v: Value, w: Value)
      requires Valid() && (aliasAnyAS.Some? || (Sound(aa, addr) && !disturbed))
      requires v in pointerMap && w in pointerMap
      requires !Apart(addr(v), pointerMap[v].size, addr(w), pointerMap[w].size)
      ensures SameSet(S(), v, w)
    {
      if aliasAnyAS.Some? {
        SaturatedSeparated(S());
      }
      assert Overlap(S(), addr, v, w);
    }
  }
}
