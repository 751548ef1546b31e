/** Adding pointers to an alias set tracker: what an insertion does, and when insertions can be relied on. */
module AliasInsertions {
  import opened Wrappers
  import opened AliasSets
  import opened AliasSeparation

  /** The alias kind of a must-alias set after a pointer is added to it. */
  function KindAfterAdd(aa: Oracle, s: State, t: Id, v: Value, size: nat, knownMust: bool): AliasLattice
    requires t in s.sets
  {
    var S := s.sets[t];
    if S.alias == SetMayAlias then SetMayAlias
    else if !knownMust && S.ptrs != [] && S.ptrs[0] in s.pm && aa(S.ptrs[0], s.pm[S.ptrs[0]].size, v, size) != MustAlias
    then SetMayAlias
    else SetMustAlias
  }

  /** The state after adding a pointer: the first pointer of a set that stays a must-alias
      set takes on the new size if that is larger. */
  function AfterAdd(aa: Oracle, s: State, t: Id, v: Value, size: nat, knownMust: bool): State
    requires t in s.sets
  {
    var a := KindAfterAdd(aa, s, t, v, size, knownMust);
    var h := s.sets[t].ptrs;
    var s1 := if a == SetMustAlias && !knownMust && h != [] && h[0] in s.pm then Resized(s, h[0], size) else s;
    Added(s1, t, v, size, a)
  }

  /** The alias kind of two merged sets. */
  function KindAfterMerge(aa: Oracle, s: State, d: Id, x: Id): AliasLattice
    requires d in s.sets && x in s.sets
  {
    var D, X := s.sets[d], s.sets[x];
    if Join(D.alias, X.alias) == SetMustAlias && D.ptrs != [] && X.ptrs != [] && D.ptrs[0] in s.pm && X.ptrs[0] in s.pm
      && aa(D.ptrs[0], s.pm[D.ptrs[0]].size, X.ptrs[0], s.pm[X.ptrs[0]].size) == MustAlias
    then SetMustAlias else SetMayAlias
  }

  /** The pointer records of a consistent tracker: the first pointer of a list is known. */
  lemma FirstKnown(s: State, newborn: Option<Id>, t: Id)
    requires Consistent(s, None, newborn) && t in s.sets && s.sets[t].ptrs != []
    ensures s.sets[t].ptrs[0] in s.pm && ResolvesTo(s, s.sets[t].ptrs[0], t)
  {
    assert ListOk(s, t) by {
      assert SetOk(s, None, newborn, t);
    }
    var h := s.sets[t].ptrs[0];
    assert h in s.sets[t].ptrs;
    assert ResolvesTo(s, h, t);
  }

  /** The most precise sound analysis for given addresses. */
  function ExactAlias(addr: Value -> int): Oracle {
    (p: Value, n: nat, q: Value, m: nat) =>
      if Apart(addr(p), n, addr(q), m) then NoAlias else if addr(p) == addr(q) then MustAlias else PartialAlias
  }

  /** When a merge keeps the tracker separated with respect to other sizes of the pointers. */
  lemma MergeKeeps(aa: Oracle, addr: Value -> int, s: State, was: Pointers, d: Id, x: Id, newborn: Option<Id>)
    requires Sound(aa, addr) && Consistent(s, None, newborn) && SameNames(s.pm, was) && CanMerge(s, d, x, SetMayAlias)
    requires Separated(WithSizes(s, was), addr)
    ensures var a := KindAfterMerge(aa, s, d, x);
      && (Separated(WithSizes(Merged(s, d, x, a), was), addr) <==> a == SetMayAlias || !SmallerHead(WithSizes(s, was), d, x))
      && (a == SetMustAlias && SmallerHead(WithSizes(s, was), d, x) ==> HasEmpty(was))
  {
    hide Consistent, HeadsCover, OverlapsShare, Sound;
    var a := KindAfterMerge(aa, s, d, x);
    WithSizesConsistent(s, was, newborn);
    MustAddresses(aa, addr, s, d, x);
    MergeSeparated(WithSizes(s, was), addr, d, x, a, newborn);
    assert WithSizes(Merged(s, d, x, a), was) == Merged(WithSizes(s, was), d, x, a);
    if a == SetMustAlias && SmallerHead(WithSizes(s, was), d, x) {
      var h := s.sets[d].ptrs[0];
      assert h in was && was[h].size == 0;
      assert HasEmpty(was);
    }
  }

  /** What a must-alias answer for the first pointers of two sets says about addresses. */
  lemma MustAddresses(aa: Oracle, addr: Value -> int, s: State, d: Id, x: Id)
    requires Sound(aa, addr) && d in s.sets && x in s.sets
    ensures KindAfterMerge(aa, s, d, x) == SetMustAlias ==>
      s.sets[d].ptrs != [] && s.sets[x].ptrs != [] && addr(s.sets[d].ptrs[0]) == addr(s.sets[x].ptrs[0])
  {
    if KindAfterMerge(aa, s, d, x) == SetMustAlias {
      var p, q := s.sets[d].ptrs[0], s.sets[x].ptrs[0];
      SoundAt(aa, addr, p, s.pm[p].size, q, s.pm[q].size);
    }
  }

  /** What a sound analysis guarantees about the set a pointer is added to. */
  lemma AfterAddSeparated(aa: Oracle, addr: Value -> int, s: State, id: Id, v: Value, size: nat, newborn: Option<Id>)
    requires Consistent(s, None, newborn) && Separated(s, addr) && Sound(aa, addr)
    requires id in s.sets && s.sets[id].forward.None? && v !in s.pm
    requires OthersApart(s, addr, id, v, size)
    ensures Separated(AfterAdd(aa, s, id, v, size, false), addr)
  {
    var a := KindAfterAdd(aa, s, id, v, size, false);
    var h := s.sets[id].ptrs;
    if h != [] {
      FirstKnown(s, newborn, id);
      SoundAt(aa, addr, h[0], s.pm[h[0]].size, v, size);
    }
    var s1 := if a == SetMustAlias && h != [] && h[0] in s.pm then Resized(s, h[0], size) else s;
    AddSeparated(s, s1, addr, id, v, size, a, newborn);
  }

  lemma GatheredFacts(aa: Oracle, addr: Value -> int, s: State, s': State, v: Value, size: nat, found: Option<Id>)
    requires Consistent(s, None, None) && Consistent(s', None, None) && Gathered(aa, s, s', v, size, s.nextId, found)
    ensures s'.pm == s.pm && s'.nextId == s.nextId && s'.any == s.any
    ensures found.Some? ==> found.value in s'.sets && s'.sets[found.value].forward.None?
    ensures found.Some? && Separated(s', addr) && Sound(aa, addr) ==> OthersApart(s', addr, found.value, v, size)
    ensures found.None? && Separated(s', addr) && Sound(aa, addr) ==> forall t :: OthersApart(s', addr, t, v, size)
  {
    if Separated(s', addr) && Sound(aa, addr) {
      forall w, u | ResolvesTo(s', w, u) && found != Some(u)
        ensures Apart(addr(v), size, addr(w), s'.pm[w].size)
      {
        RootIsTarget(s', None, None, s'.pm[w].set_);
        assert SetOk(s', None, None, u);
        UntouchedIsApart(aa, s', addr, u, v, size, w);
      }
    }
  }

  lemma AfterAddGroups(aa: Oracle, s: State, id: Id, v: Value, size: nat)
    requires id in s.sets && id in s.root && s.root[id] == id && v !in s.pm
    ensures var s' := AfterAdd(aa, s, id, v, size, false);
      && (forall w, u :: ResolvesTo(s', w, u) <==> if w == v then u == id else ResolvesTo(s, w, u))
      && s'.pm.Keys == s.pm.Keys + {v} && s'.pm[v].size == size
      && (forall w | w in s.pm :: s'.pm[w].size >= s.pm[w].size)
      && id in s'.sets && s'.sets[id].forward == s.sets[id].forward
  {
    var a := KindAfterAdd(aa, s, id, v, size, false);
    var h := s.sets[id].ptrs;
    var s1 := if a == SetMustAlias && h != [] && h[0] in s.pm then Resized(s, h[0], size) else s;
    AddedGroups(aa, s, s1, id, v, size, a);
  }

  lemma GrownApart(addr: Value -> int, s: State, v: Value, size: nat, id: Id)
    requires Consistent(s, None, None) && id == s.nextId && id !in s.sets
    ensures forall w, u :: ResolvesTo(Grown(s, NEW_SET), w, u) <==> ResolvesTo(s, w, u)
    ensures OthersApart(s, addr, id, v, size) ==> OthersApart(Grown(s, NEW_SET), addr, id, v, size)
  {
    var s' := Grown(s, NEW_SET);
    forall w, u ensures ResolvesTo(s', w, u) <==> ResolvesTo(s, w, u) {
      if w in s.pm {
        SetOfEntry(s, None, None, w);
      }
    }
  }

  // ----- Gathering, as a function -----

  /** One round of the search: set i is taken into the set found, if it is touched. */
  ghost function GatherStep(aa: Oracle, s: State, found: Option<Id>, v: Value, size: nat, i: Id): (State, Option<Id>) {
    if i !in s.sets || s.sets[i].forward.Some? || !Touches(aa, s, i, v, size) then (s, found)
    else if found.None? then (s, Some(i))
    else if found.value !in s.sets || found.value == i then (s, found)
    else (Merged(s, found.value, i, KindAfterMerge(aa, s, found.value, i)), found)
  }

  /** The touched live sets older than n, merged into the oldest of them. */
  ghost function Gather(aa: Oracle, s: State, v: Value, size: nat, n: nat): (State, Option<Id>) {
    if n == 0 then (s, None)
    else
      var (s1, found) := Gather(aa, s, v, size, n - 1);
      GatherStep(aa, s1, found, v, size, n - 1)
  }

  lemma GatherNone(aa: Oracle, s: State, v: Value, size: nat)
    requires Consistent(s, None, None)
    ensures Gathered(aa, s, s, v, size, 0, None)
  {
    forall t | t in s.sets && t < 0 ensures false {
      SetOkAt(s, None, None, t);
    }
  }

  lemma NothingYet(aa: Oracle, s: State, v: Value, size: nat)
    ensures Gather(aa, s, v, size, 0) == (s, None)
  {
  }

  lemma GatherNext(aa: Oracle, s: State, v: Value, size: nat, n: nat)
    ensures var (s1, found) := Gather(aa, s, v, size, n);
      Gather(aa, s, v, size, n + 1) == GatherStep(aa, s1, found, v, size, n)
  {
  }

  lemma GatherStepOk(aa: Oracle, s: State, s1: State, found: Option<Id>, v: Value, size: nat, i: nat)
    requires Consistent(s, None, None) && s.any.None? && Consistent(s1, None, None)
    requires Gathered(aa, s, s1, v, size, i, found)
    ensures var (s2, found') := GatherStep(aa, s1, found, v, size, i);
      Consistent(s2, None, None) && Gathered(aa, s, s2, v, size, i + 1, found')
  {
    hide Consistent, Touches;
    if i !in s1.sets || s1.sets[i].forward.Some? || !Touches(aa, s1, i, v, size) {
      GatherSkip(aa, s, s1, v, size, i, found);
    } else if found.None? {
      GatherFirst(aa, s, v, size, i);
    } else {
      var f := found.value;
      SetOkAt(s1, None, None, f);
      SetOkAt(s1, None, None, i);
      NotEmpty(s1, None, f);
      MergeConsistent(s1, f, i, KindAfterMerge(aa, s1, f, i), None);
      GatherMerge(aa, s, s1, v, size, i, f, KindAfterMerge(aa, s1, f, i));
    }
  }

  lemma {:induction false} GatherOk(aa: Oracle, s: State, v: Value, size: nat, n: nat)
    requires Consistent(s, None, None) && s.any.None?
    ensures var (s', found) := Gather(aa, s, v, size, n);
      Consistent(s', None, None) && Gathered(aa, s, s', v, size, n, found)
  {
    hide Consistent, Gathered, GatherStep;
    if n == 0 {
      GatherNone(aa, s, v, size);
    } else {
      GatherOk(aa, s, v, size, n - 1);
      var (s1, found) := Gather(aa, s, v, size, n - 1);
      GatherStepOk(aa, s, s1, found, v, size, n - 1);
    }
  }

  /** Without empty accesses gathering keeps the tracker separated. */
  lemma {:induction false} GatherSeparated(aa: Oracle, addr: Value -> int, s: State, v: Value, size: nat, n: nat)
    requires Sound(aa, addr) && Consistent(s, None, None) && s.any.None? && Separated(s, addr) && !HasEmpty(s.pm)
    ensures Separated(Gather(aa, s, v, size, n).0, addr)
  {
    hide Consistent, Separated, HasEmpty, Touches, Sound;
    if n > 0 {
      GatherSeparated(aa, addr, s, v, size, n - 1);
      GatherOk(aa, s, v, size, n - 1);
      var (s1, found) := Gather(aa, s, v, size, n - 1);
      if found.Some? && n - 1 in s1.sets && s1.sets[n - 1].forward.None? {
        SetOkAt(s1, None, None, found.value);
        SetOkAt(s1, None, None, n - 1);
        assert s1 == WithSizes(s1, s.pm);
        var a := KindAfterMerge(aa, s1, found.value, n - 1);
        MergeKeeps(aa, addr, s1, s.pm, found.value, n - 1, None);
        assert WithSizes(Merged(s1, found.value, n - 1, a), s.pm) == Merged(s1, found.value, n - 1, a);
      }
    }
  }

  // ----- One insertion -----

  /** The tracker after a new pointer has been added, by the search or in a set of its own. */
  ghost function AfterInsert(aa: Oracle, s: State, v: Value, size: nat): State
    requires s.nextId >= 0
  {
    var (s1, found) := Gather(aa, s, v, size, s.nextId);
    if found.Some? && found.value in s1.sets then AfterAdd(aa, s1, found.value, v, size, false)
    else AfterAdd(aa, Grown(s1, NEW_SET), s1.nextId, v, size, false)
  }

  lemma AfterAddConsistent(aa: Oracle, s: State, id: Id, v: Value, size: nat, newborn: Option<Id>)
    requires Consistent(s, None, newborn) && id in s.sets && s.sets[id].forward.None? && v !in s.pm
    requires newborn.Some? ==> newborn == Some(id)
    ensures Consistent(AfterAdd(aa, s, id, v, size, false), None, None)
  {
    hide Consistent;
    var a := KindAfterAdd(aa, s, id, v, size, false);
    var h := s.sets[id].ptrs;
    if a == SetMustAlias && h != [] {
      FirstKnown(s, newborn, id);
      ResizeConsistent(s, h[0], size, newborn);
      AddConsistent(Resized(s, h[0], size), id, v, size, a, newborn);
    } else {
      AddConsistent(s, id, v, size, a, newborn);
    }
  }

  /** An insertion keeps the tracker's invariant and tracks one more pointer. */
  lemma InsertOk(aa: Oracle, s: State, v: Value, size: nat)
    requires Consistent(s, None, None) && s.any.None? && v !in s.pm
    ensures var s' := AfterInsert(aa, s, v, size);
      && Consistent(s', None, None) && s'.any.None? && s'.pm.Keys == s.pm.Keys + {v} && s'.pm[v].size == size
      && (forall w | w in s.pm :: s'.pm[w].size >= s.pm[w].size)
  {
    hide Consistent, Gathered, Gather, AfterAdd;
    var (s1, found) := Gather(aa, s, v, size, s.nextId);
    GatherOk(aa, s, v, size, s.nextId);
    GatheredEnds(aa, s, s1, v, size, found);
    var s2, id := if found.Some? then s1 else Grown(s1, NEW_SET), if found.Some? then found.value else s1.nextId;
    if found.None? {
      GrowConsistent(s1, NEW_SET);
    }
    var newborn := if found.Some? then None else Some(id);
    SetOkAt(s2, None, newborn, id);
    AfterAddConsistent(aa, s2, id, v, size, newborn);
    AfterAddGroups(aa, s2, id, v, size);
    AfterAddSame(aa, s2, id, v, size);
  }

  lemma AfterAddSame(aa: Oracle, s: State, id: Id, v: Value, size: nat)
    requires id in s.sets
    ensures AfterAdd(aa, s, id, v, size, false).any == s.any
  {
  }

  lemma GatheredEnds(aa: Oracle, s: State, s': State, v: Value, size: nat, found: Option<Id>)
    requires Gathered(aa, s, s', v, size, s.nextId, found)
    ensures s'.pm == s.pm && s'.nextId == s.nextId && s'.any == s.any
    ensures found.Some? ==> found.value in s'.sets && s'.sets[found.value].forward.None?
  {
  }

  /** What the search leaves alone holds nothing that overlaps, if first pointers covered their
      sets before. */
  lemma GatheredApart(aa: Oracle, addr: Value -> int, s: State, s': State, v: Value, size: nat, found: Option<Id>, w: Value, u: Id)
    requires Consistent(s, None, None) && Consistent(s', None, None) && Gathered(aa, s, s', v, size, s.nextId, found)
    requires Sound(aa, addr) && HeadsCover(s, addr) && ResolvesTo(s', w, u) && found != Some(u)
    ensures Apart(addr(v), size, addr(w), s'.pm[w].size)
  {
    hide Touches, Sound;
    RootIsTarget(s', None, None, s'.pm[w].set_);
    assert SetOk(s', None, None, u);
    assert s'.sets[u] == s.sets[u] && !Touches(aa, s', u, v, size);
    assert HeadCovers(s, addr, u);
    UntouchedIsApart(aa, s', addr, u, v, size, w);
  }

  lemma GatheredShares(aa: Oracle, addr: Value -> int, s: State, s': State, v: Value, size: nat, found: Option<Id>)
    requires Consistent(s, None, None) && Consistent(s', None, None) && Gathered(aa, s, s', v, size, s.nextId, found)
    requires Sound(aa, addr) && Separated(s, addr)
    ensures OverlapsShare(s', addr)
    ensures found.Some? ==> OthersApart(s', addr, found.value, v, size)
    ensures found.None? ==> forall t :: OthersApart(s', addr, t, v, size)
  {
    hide Consistent, Sound;
    GatheredEnds(aa, s, s', v, size, found);
    GatheredJoins(aa, s, s', v, size, found);
    forall p, q | Overlap(s', addr, p, q) ensures SameSet(s', p, q) {
      assert Overlap(s, addr, p, q);
    }
    forall w, u | ResolvesTo(s', w, u) && found != Some(u) ensures Apart(addr(v), size, addr(w), s'.pm[w].size) {
      GatheredApart(aa, addr, s, s', v, size, found, w, u);
    }
  }

  lemma AfterAddShares(aa: Oracle, addr: Value -> int, s: State, id: Id, v: Value, size: nat, newborn: Option<Id>)
    requires Consistent(s, None, newborn) && OverlapsShare(s, addr) && Sound(aa, addr)
    requires id in s.sets && s.sets[id].forward.None? && v !in s.pm && OthersApart(s, addr, id, v, size)
    ensures OverlapsShare(AfterAdd(aa, s, id, v, size, false), addr)
  {
    var a := KindAfterAdd(aa, s, id, v, size, false);
    var h := s.sets[id].ptrs;
    if h != [] {
      FirstKnown(s, newborn, id);
      SoundAt(aa, addr, h[0], s.pm[h[0]].size, v, size);
    }
    var s1 := if a == SetMustAlias && h != [] && h[0] in s.pm then Resized(s, h[0], size) else s;
    forall p, q | Overlap(Added(s1, id, v, size, a), addr, p, q) ensures SameSet(Added(s1, id, v, size, a), p, q) {
      AddOverlapOk(s, s1, addr, id, v, size, a, newborn, p, q);
    }
  }

  lemma GrownShares(s: State, addr: Value -> int)
    requires Consistent(s, None, None) && OverlapsShare(s, addr) && s.nextId !in s.sets
    ensures OverlapsShare(Grown(s, NEW_SET), addr)
  {
    var s' := Grown(s, NEW_SET);
    forall v, w | Overlap(s', addr, v, w) ensures SameSet(s', v, w) {
      assert Overlap(s, addr, v, w);
      var t :| ResolvesTo(s, v, t) && ResolvesTo(s, w, t);
      RootIsTarget(s, None, None, s.pm[v].set_);
      assert ResolvesTo(s', v, t) && ResolvesTo(s', w, t);
    }
  }

  /** With a sound analysis, an insertion into a separated tracker keeps overlapping pointers
      together. */
  lemma InsertShares(aa: Oracle, addr: Value -> int, s: State, v: Value, size: nat)
    requires Sound(aa, addr) && Consistent(s, None, None) && s.any.None? && Separated(s, addr) && v !in s.pm
    ensures OverlapsShare(AfterInsert(aa, s, v, size), addr)
  {
    hide Consistent, Gathered, Gather, AfterAdd, Separated, OverlapsShare, Sound;
    var (s1, found) := Gather(aa, s, v, size, s.nextId);
    GatherOk(aa, s, v, size, s.nextId);
    GatheredEnds(aa, s, s1, v, size, found);
    GatheredShares(aa, addr, s, s1, v, size, found);
    if found.Some? {
      AfterAddShares(aa, addr, s1, found.value, v, size, None);
    } else {
      GrowConsistent(s1, NEW_SET);
      GrownShares(s1, addr);
      GrownApart(addr, s1, v, size, s1.nextId);
      AfterAddShares(aa, addr, Grown(s1, NEW_SET), s1.nextId, v, size, Some(s1.nextId));
    }
  }

  /** Without empty accesses it leaves the tracker separated, too. */
  lemma InsertSeparated(aa: Oracle, addr: Value -> int, s: State, v: Value, size: nat)
    requires Sound(aa, addr) && Consistent(s, None, None) && s.any.None? && Separated(s, addr) && !HasEmpty(s.pm) && v !in s.pm
    ensures Separated(AfterInsert(aa, s, v, size), addr)
  {
    hide Consistent, Gathered, Gather, AfterAdd, Separated, Sound;
    var (s1, found) := Gather(aa, s, v, size, s.nextId);
    GatherOk(aa, s, v, size, s.nextId);
    GatherSeparated(aa, addr, s, v, size, s.nextId);
    GatheredEnds(aa, s, s1, v, size, found);
    GatheredFacts(aa, addr, s, s1, v, size, found);
    if found.Some? {
      AfterAddSeparated(aa, addr, s1, found.value, v, size, None);
    } else {
      GrowConsistent(s1, NEW_SET);
      GrowSeparated(s1, NEW_SET, addr);
      GrownApart(addr, s1, v, size, s1.nextId);
      AfterAddSeparated(aa, addr, Grown(s1, NEW_SET), s1.nextId, v, size, Some(s1.nextId));
    }
  }

  // ----- When insertions can be relied on -----

  /** Some pointer that is not tracked points to x. */
  ghost predicate HasUntracked(pm: Pointers, addr: Value -> int, x: int) {
    exists v :: v !in pm && addr(v) == x
  }

  /** Any insertion keeps overlapping pointers together. */
  ghost predicate InsertionsShare(aa: Oracle, s: State, addr: Value -> int) {
    forall v, size: nat | v !in s.pm :: OverlapsShare(AfterInsert(aa, s, v, size), addr)
  }

  /** The address of a byte of w that the first pointer of its must-alias set does not cover. */
  function MissedByte(s: State, addr: Value -> int, w: Value, h: Value): int
    requires w in s.pm && h in s.pm
  {
    if addr(w) < addr(h) then addr(w) else addr(w) + s.pm[w].size - 1
  }

  /** What overlaps a byte that the first pointer of a must-alias set misses is not found. */
  lemma MissedUntouched(s: State, addr: Value -> int, t: Id, w: Value, v: Value, u: Id)
    requires Consistent(s, None, None) && s.any.None? && OverlapsShare(s, addr) && ResolvesTo(s, w, t) && t in s.sets
    requires Outgrows(s, addr, w, t) && addr(v) == MissedByte(s, addr, w, s.sets[t].ptrs[0])
    requires u in s.sets && s.sets[u].forward.None?
    ensures !Touches(ExactAlias(addr), s, u, v, 1)
  {
    assert SetOk(s, None, None, u) && SetOk(s, None, None, t);
    assert s.sets[t].ptrs[0] in s.sets[t].ptrs;
    forall q | q in s.sets[u].ptrs && q in s.pm && !Apart(addr(q), s.pm[q].size, addr(v), 1)
      ensures u == t && q != s.sets[t].ptrs[0]
    {
      assert Overlap(s, addr, q, w);
      assert ResolvesTo(s, q, u);
      assert SameSet(s, q, w);
    }
    assert s.sets[u].ptrs != [] ==> s.sets[u].ptrs[0] in s.sets[u].ptrs;
  }

  lemma {:induction false} NothingGathered(aa: Oracle, s: State, v: Value, size: nat, n: nat)
    requires forall u | u in s.sets && s.sets[u].forward.None? :: !Touches(aa, s, u, v, size)
    ensures Gather(aa, s, v, size, n) == (s, None)
  {
    if n > 0 {
      NothingGathered(aa, s, v, size, n - 1);
    }
  }

  /** If the first pointer of a must-alias set misses a byte of w, a new pointer to that byte is
      put in a set of its own, even with the most precise analysis. */
  lemma InsertionLoses(s: State, addr: Value -> int, t: Id, w: Value, v: Value)
    requires Consistent(s, None, None) && s.any.None? && OverlapsShare(s, addr) && ResolvesTo(s, w, t) && t in s.sets
    requires Outgrows(s, addr, w, t) && v !in s.pm && addr(v) == MissedByte(s, addr, w, s.sets[t].ptrs[0])
    ensures var s' := AfterInsert(ExactAlias(addr), s, v, 1);
      s'.pm.Keys == s.pm.Keys + {v} && Overlap(s', addr, w, v) && !SameSet(s', w, v)
  {
    var aa := ExactAlias(addr);
    forall u | u in s.sets && s.sets[u].forward.None? ensures !Touches(aa, s, u, v, 1) {
      MissedUntouched(s, addr, t, w, v, u);
    }
    hide Touches, Consistent, AfterAdd;
    NothingGathered(aa, s, v, 1, s.nextId);
    GrowConsistent(s, NEW_SET);
    GrownApart(addr, s, v, 1, s.nextId);
    AfterAddGroups(aa, Grown(s, NEW_SET), s.nextId, v, 1);
    var s' := AfterAdd(aa, Grown(s, NEW_SET), s.nextId, v, 1, false);
    assert AfterInsert(aa, s, v, 1) == s';
    assert ResolvesTo(s', v, s.nextId);
    assert s'.pm[w].size >= s.pm[w].size;
  }

  /** The invariant is exactly what insertions need: overlapping pointers that are together stay
      together at every further insertion if and only if the first pointer of each must-alias set
      covers the others.  Needed already for the most precise analysis, enough for every sound
      one. */
  lemma InsertionsNeedCover(s: State, addr: Value -> int)
    requires Consistent(s, None, None) && s.any.None? && OverlapsShare(s, addr)
    requires forall x :: HasUntracked(s.pm, addr, x)
    ensures InsertionsShare(ExactAlias(addr), s, addr) <==> HeadsCover(s, addr)
    ensures HeadsCover(s, addr) ==> forall aa | Sound(aa, addr) :: InsertionsShare(aa, s, addr)
  {
    hide AfterInsert, Consistent;
    if HeadsCover(s, addr) {
      forall aa, v, size: nat | Sound(aa, addr) && v !in s.pm ensures OverlapsShare(AfterInsert(aa, s, v, size), addr) {
        InsertShares(aa, addr, s, v, size);
      }
      ExactIsSound(addr);
    } else {
      var t :| !HeadCovers(s, addr, t);
      var w := Missed(s, addr, t);
      var x := MissedByte(s, addr, w, s.sets[t].ptrs[0]);
      assert HasUntracked(s.pm, addr, x);
      var v :| v !in s.pm && addr(v) == x;
      InsertionLoses(s, addr, t, w, v);
    }
  }

  lemma ExactIsSound(addr: Value -> int)
    ensures Sound(ExactAlias(addr), addr)
  {
  }

  lemma Missed(s: State, addr: Value -> int, t: Id) returns (w: Value)
    requires Consistent(s, None, None) && !HeadCovers(s, addr, t)
    ensures t in s.sets && ResolvesTo(s, w, t) && Outgrows(s, addr, w, t)
  {
    assert SetOk(s, None, None, t);
    w :| w in s.sets[t].ptrs && !(w in s.pm && s.sets[t].ptrs[0] in s.pm
           && Within(addr(w), s.pm[w].size, addr(s.sets[t].ptrs[0]), s.pm[s.sets[t].ptrs[0]].size));
    assert ResolvesTo(s, w, t);
    FirstKnown(s, None, t);
  }

  // ----- Whole runs of insertions -----

  type Access = (Value, nat)

  ghost predicate AllNew(s: State, todo: seq<Access>) {
    && (forall i | 0 <= i < |todo| :: todo[i].0 !in s.pm && todo[i].1 > 0)
    && (forall i, j | 0 <= i < j < |todo| :: todo[i].0 != todo[j].0)
  }

  ghost function AfterInserts(aa: Oracle, s: State, todo: seq<Access>): State
    decreases |todo|
  {
    if todo == [] then s else AfterInserts(aa, AfterInsert(aa, s, todo[0].0, todo[0].1), todo[1..])
  }

  lemma {:induction false} RunKeepsSeparated(aa: Oracle, addr: Value -> int, s: State, todo: seq<Access>)
    requires Sound(aa, addr) && Consistent(s, None, None) && s.any.None? && Separated(s, addr) && !HasEmpty(s.pm)
    requires AllNew(s, todo)
    ensures Separated(AfterInserts(aa, s, todo), addr)
    decreases |todo|
  {
    hide Consistent, Separated, AfterInsert, Sound;
    if todo != [] {
      var s' := AfterInsert(aa, s, todo[0].0, todo[0].1);
      InsertOk(aa, s, todo[0].0, todo[0].1);
      InsertSeparated(aa, addr, s, todo[0].0, todo[0].1);
      forall w | w in s'.pm ensures s'.pm[w].size > 0 {
        assert w in s'.pm.Keys;
        assert w != todo[0].0 ==> w in s.pm.Keys && s.pm[w].size > 0;
      }
      forall i | 0 <= i < |todo[1..]| ensures todo[1..][i].0 !in s'.pm {
        assert todo[1..][i] == todo[i + 1];
        assert todo[i + 1].0 !in s'.pm.Keys;
      }
      RunKeepsSeparated(aa, addr, s', todo[1..]);
    }
  }

  ghost predicate RunsShare(aa: Oracle, s: State, addr: Value -> int) {
    forall todo | AllNew(s, todo) :: OverlapsShare(AfterInserts(aa, s, todo), addr)
  }

  /** The same over whole runs of insertions of nonempty accesses. */
  lemma RunsNeedCover(s: State, addr: Value -> int)
    requires Consistent(s, None, None) && s.any.None? && OverlapsShare(s, addr) && !HasEmpty(s.pm)
    requires forall x :: HasUntracked(s.pm, addr, x)
    ensures RunsShare(ExactAlias(addr), s, addr) <==> HeadsCover(s, addr)
    ensures HeadsCover(s, addr) ==> forall aa | Sound(aa, addr) :: RunsShare(aa, s, addr)
  {
    hide AfterInsert, Consistent;
    if HeadsCover(s, addr) {
      forall aa, todo | Sound(aa, addr) && AllNew(s, todo) ensures OverlapsShare(AfterInserts(aa, s, todo), addr) {
        RunKeepsSeparated(aa, addr, s, todo);
      }
      ExactIsSound(addr);
    } else {
      var t :| !HeadCovers(s, addr, t);
      var w := Missed(s, addr, t);
      var x := MissedByte(s, addr, w, s.sets[t].ptrs[0]);
      assert HasUntracked(s.pm, addr, x);
      var v :| v !in s.pm && addr(v) == x;
      InsertionLoses(s, addr, t, w, v);
      var todo := [(v, 1)];
      assert AllNew(s, todo) && todo[1..] == [];
      assert AfterInserts(ExactAlias(addr), s, todo) == AfterInsert(ExactAlias(addr), s, v, 1);
    }
  }

  // ----- Which operations leave a tracker that insertions can rely on -----

  lemma EquivalentCovers(s: State, s': State, addr: Value -> int, owed: Option<Id>)
    requires Consistent(s, owed, None) && Consistent(s', None, None) && Equivalent(s, s')
    ensures HeadsCover(s', addr) <==> HeadsCover(s, addr)
  {
    SizesStay(s, s');
    forall t ensures HeadCovers(s', addr, t) <==> HeadCovers(s, addr, t) {
      EquivalentAt(s, s', t);
      if t in s.sets && s.sets[t].ptrs != [] {
        assert SetOk(s, owed, None, t);
        var h := s.sets[t].ptrs[0];
        assert h in s.sets[t].ptrs && ResolvesTo(s, h, t) && ResolvesTo(s', h, t);
        RootIsTarget(s', None, None, s'.pm[h].set_);
        assert forall w | w in s.sets[t].ptrs :: ResolvesTo(s, w, t);
      }
    }
    assert HeadsCover(s, addr) ==> forall t :: HeadCovers(s, addr, t);
  }

  lemma EquivalentShares(s: State, s': State, addr: Value -> int)
    requires Equivalent(s, s') && OverlapsShare(s, addr)
    ensures OverlapsShare(s', addr)
  {
    SizesStay(s, s');
    forall v, w | Overlap(s', addr, v, w) ensures SameSet(s', v, w) {
      assert Overlap(s, addr, v, w);
    }
  }

  /** A deletion keeps overlapping pointers together; insertions go on doing so exactly if the next
      first pointer of the must-alias set covers every other. */
  lemma DeletionSafe(s: State, s': State, addr: Value -> int, v: Value)
    requires Consistent(s, None, None) && s.any.None? && Separated(s, addr)
    requires v in s.pm && s.sets[s.pm[v].set_].forward.None?
    requires Equivalent(Deleted(s, v), s') && Consistent(s', None, None) && forall x :: HasUntracked(s'.pm, addr, x)
    ensures OverlapsShare(s', addr)
    ensures InsertionsShare(ExactAlias(addr), s', addr) <==> !NextOutgrown(s, addr, v)
  {
    hide Separated, HeadsCover, OverlapsShare, Equivalent, NextOutgrown, InsertionsShare, HasUntracked;
    DeleteConsistent(s, v);
    DeleteSeparated(s, addr, v);
    EquivalentShares(Deleted(s, v), s', addr);
    EquivalentCovers(Deleted(s, v), s', addr, Some(s.pm[v].set_));
    SizesStay(Deleted(s, v), s');
    InsertionsNeedCover(s', addr);
  }

  /** After a pointer has grown and the sets it touches are joined, overlapping pointers are
      together and insertions keep them so exactly if the pointer is covered by the first one of
      the must-alias set it ends up in. */
  lemma GrowthSafe(aa: Oracle, s: State, addr: Value -> int, v: Value, size: nat, s': State, found: Option<Id>, t: Id)
    requires Sound(aa, addr) && Consistent(s, None, None) && Separated(s, addr) && v in s.pm && size > s.pm[v].size
    requires Consistent(s', None, None) && Gathered(aa, Resized(s, v, size), s', v, size, s.nextId, found)
    requires Separated(WithSizes(s', s.pm), addr) && ResolvesTo(s', v, t)
    requires s'.any.None? && forall x :: HasUntracked(s'.pm, addr, x)
    ensures OverlapsShare(s', addr) && InsertionsShare(ExactAlias(addr), s', addr) <==> !Outgrows(s', addr, v, t)
    ensures s.pm[v].size > 0 ==> OverlapsShare(s', addr)
  {
    hide Separated, HeadsCover, OverlapsShare, Gathered, Outgrows, InsertionsShare, HasUntracked, Sound, Consistent;
    GrowthSeparated(aa, s, addr, v, size, s', found, t);
    if OverlapsShare(s', addr) {
      InsertionsNeedCover(s', addr);
    }
  }

  /** A merge keeps overlapping pointers together; insertions go on doing so unless it keeps a
      first pointer that is smaller than that of the set merged in. */
  lemma MergeSafe(s: State, addr: Value -> int, d: Id, x: Id, a: AliasLattice)
    requires Consistent(s, None, None) && s.any.None? && CanMerge(s, d, x, a) && Separated(s, addr)
    requires a == SetMustAlias ==>
      && s.sets[d].ptrs != [] && s.sets[x].ptrs != [] && addr(s.sets[d].ptrs[0]) == addr(s.sets[x].ptrs[0])
    requires forall y :: HasUntracked(s.pm, addr, y)
    ensures OverlapsShare(Merged(s, d, x, a), addr)
    ensures InsertionsShare(ExactAlias(addr), Merged(s, d, x, a), addr) <==> a == SetMayAlias || !SmallerHead(s, d, x)
  {
    hide Separated, HeadsCover, OverlapsShare, SmallerHead, InsertionsShare, HasUntracked, Consistent;
    MergeConsistent(s, d, x, a, None);
    MergeSeparated(s, addr, d, x, a, None);
    InsertionsNeedCover(Merged(s, d, x, a), addr);
  }

  /** After a copy, overlapping pointers are together and insertions keep them so exactly if the
      copy fits the set of its original. */
  lemma CopySafe(s: State, addr: Value -> int, t: Id, v: Value, size: nat)
    requires Consistent(s, None, None) && s.any.None? && Separated(s, addr)
    requires t in s.sets && s.sets[t].forward.None? && v !in s.pm && s.sets[t].ptrs != []
    requires forall x :: HasUntracked(s.pm + map[v := PointerRec(t, size)], addr, x)
    ensures var s' := Added(s, t, v, size, s.sets[t].alias);
      OverlapsShare(s', addr) && InsertionsShare(ExactAlias(addr), s', addr) <==> FitsSet(s, addr, t, v, size)
  {
    hide Separated, HeadsCover, OverlapsShare, FitsSet, InsertionsShare, HasUntracked, Consistent;
    var s' := Added(s, t, v, size, s.sets[t].alias);
    FirstKnown(s, None, t);
    AddConsistent(s, t, v, size, s.sets[t].alias, None);
    AddKnownSeparated(s, addr, t, v, size);
    assert s'.pm == s.pm + map[v := PointerRec(t, size)];
    SeparatedIs(s', addr);
    if OverlapsShare(s', addr) {
      InsertionsNeedCover(s', addr);
    }
  }

  lemma SeparatedIs(s: State, addr: Value -> int)
    ensures Separated(s, addr) <==> HeadsCover(s, addr) && OverlapsShare(s, addr)
  {
  }

  // ----- Two histories that lose separation -----

  /** A tracker with one must-alias set of pointers with the given access sizes. */
  ghost predicate OneSet(s: State, ps: seq<Value>, pm: Pointers) {
    && s.sets.Keys == {0} && s.sets[0] == NEW_SET.(ptrs := ps, refCount := |ps|, setSize := s.sets[0].setSize)
    && s.pm == pm && s.root == map[0 := 0] && s.nextId == 1 && s.any == None
  }

  /** Adding a pointer at the address of the others keeps it one must-alias set. */
  lemma OneSetAdd(addr: Value -> int, s: State, ps: seq<Value>, pm: Pointers, v: Value, size: nat)
    requires OneSet(s, ps, pm) && ps != [] && ps[0] in pm
    requires addr(v) == addr(ps[0]) && 0 < size <= pm[ps[0]].size
    ensures OneSet(AfterAdd(ExactAlias(addr), s, 0, v, size, false), ps + [v], pm[v := PointerRec(0, size)])
  {
  }

  lemma OneSetFirst(addr: Value -> int, v: Value, size: nat)
    ensures OneSet(AfterAdd(ExactAlias(addr), Grown(State(map[], map[], map[], 0, None, 0), NEW_SET), 0, v, size, false),
                   [v], map[v := PointerRec(0, size)])
  {
  }

  /** A pointer that is apart from the first one of the set gets a set of its own. */
  lemma OneSetApart(addr: Value -> int, s: State, ps: seq<Value>, pm: Pointers, v: Value, size: nat, q: Value)
    requires OneSet(s, ps, pm) && ps != [] && ps[0] in pm && v !in pm && q in pm && pm[q].set_ == 0
    requires Apart(addr(ps[0]), pm[ps[0]].size, addr(v), size)
    ensures !Touches(ExactAlias(addr), s, 0, v, size)
    ensures var s' := AfterAdd(ExactAlias(addr), Grown(s, NEW_SET), 1, v, size, false);
      && !SameSet(s', q, v)
      && (Overlap(s', addr, q, v) <==> !Apart(addr(q), pm[q].size, addr(v), size))
  {
    var s' := AfterAdd(ExactAlias(addr), Grown(s, NEW_SET), 1, v, size, false);
    assert s'.pm == pm[v := PointerRec(1, size)] && s'.root[0] == 0 && s'.root[1] == 1;
  }

  /** Separation is lost when a tracked pointer outgrows the first one of its set.  Pointers 1
      and 2 at address 0, both of size 1, form a must-alias set; 2 grows to 8 bytes, but the set
      is still asked about through pointer 1, so pointer 3 at address 4 gets a set of its own. */
  lemma GrowthLosesSeparation(addr: Value -> int)
    requires addr(1) == 0 && addr(2) == 0 && addr(3) == 4
    ensures Sound(ExactAlias(addr), addr)
    ensures var aa := ExactAlias(addr);
      var s0 := AfterAdd(aa, Grown(State(map[], map[], map[], 0, None, 0), NEW_SET), 0, 1, 1, false);
      var s1 := AfterAdd(aa, s0, 0, 2, 1, false);
      var s2 := Resized(s1, 2, 8);
      var s3 := AfterAdd(aa, Grown(s2, NEW_SET), 1, 3, 1, false);
      && s1.sets[0].alias == SetMustAlias && s1.sets[0].ptrs == [1, 2] && Outgrows(s2, addr, 2, 0)
      && !Touches(aa, s2, 0, 3, 1) && Overlap(s3, addr, 2, 3) && !SameSet(s3, 2, 3)
  {
    var aa := ExactAlias(addr);
    var s0 := AfterAdd(aa, Grown(State(map[], map[], map[], 0, None, 0), NEW_SET), 0, 1, 1, false);
    OneSetFirst(addr, 1, 1);
    OneSetAdd(addr, s0, [1], map[1 := PointerRec(0, 1)], 2, 1);
    assert [1] + [2] == [1, 2];
    var s2 := Resized(AfterAdd(aa, s0, 0, 2, 1, false), 2, 8);
    OneSetApart(addr, s2, [1, 2], map[1 := PointerRec(0, 1), 2 := PointerRec(0, 8)], 3, 1, 2);
  }

  /** Pointers 1, 2 and 3, of sizes 8, 1 and 4, added in this order. */
  function ThreePointers(aa: Oracle): State {
    var s0 := AfterAdd(aa, Grown(State(map[], map[], map[], 0, None, 0), NEW_SET), 0, 1, 8, false);
    AfterAdd(aa, AfterAdd(aa, s0, 0, 2, 1, false), 0, 3, 4, false)
  }

  lemma ThreeInOneSet(addr: Value -> int)
    requires addr(1) == 0 && addr(2) == 0 && addr(3) == 0
    ensures OneSet(ThreePointers(ExactAlias(addr)), [1, 2, 3], map[1 := PointerRec(0, 8), 2 := PointerRec(0, 1), 3 := PointerRec(0, 4)])
  {
    hide OneSet, AfterAdd;
    var aa := ExactAlias(addr);
    var s0 := AfterAdd(aa, Grown(State(map[], map[], map[], 0, None, 0), NEW_SET), 0, 1, 8, false);
    OneSetFirst(addr, 1, 8);
    OneSetAdd(addr, s0, [1], map[1 := PointerRec(0, 8)], 2, 1);
    OneSetAdd(addr, AfterAdd(aa, s0, 0, 2, 1, false), [1, 2], map[1 := PointerRec(0, 8), 2 := PointerRec(0, 1)], 3, 4);
    assert [1] + [2] == [1, 2] && [1, 2] + [3] == [1, 2, 3];
  }

  lemma FirstOfThreeDeleted(s: State, addr: Value -> int)
    requires OneSet(s, [1, 2, 3], map[1 := PointerRec(0, 8), 2 := PointerRec(0, 1), 3 := PointerRec(0, 4)])
    ensures NextOutgrown(s, addr, 1)
    ensures OneSet(CountedDown(Deleted(s, 1), 0), [2, 3], map[2 := PointerRec(0, 1), 3 := PointerRec(0, 4)])
  {
    assert [1, 2, 3][1..] == [2, 3] && [2, 3][1..] == [3];
    assert Without([3], 1) == [3];
    assert Without([1, 2, 3], 1) == [2, 3];
    assert 3 in [2, 3];
    assert ResolvesTo(s, 1, 0);
  }

  /** Separation is lost when the first pointer of a set goes and the next one is smaller than
      another.  Pointers 1, 2 and 3 at address 0, of sizes 8, 1 and 4, form a must-alias set; once
      1 is deleted the set is asked about through 2, so pointer 4 at address 2 gets a set of its
      own although it overlaps 3. */
  lemma DeletionLosesSeparation(addr: Value -> int)
    requires addr(1) == 0 && addr(2) == 0 && addr(3) == 0 && addr(4) == 2
    ensures var aa := ExactAlias(addr);
      var s1 := ThreePointers(aa);
      && Sound(aa, addr) && 1 in s1.pm && 0 in s1.sets && s1.pm[1].set_ == 0 && NextOutgrown(s1, addr, 1)
      && s1.sets[0].refCount > 1 && s1.nextId == 1
      && var s2 := CountedDown(Deleted(s1, 1), 0);
      var s3 := AfterAdd(aa, Grown(s2, NEW_SET), 1, 4, 1, false);
      !Touches(aa, s2, 0, 4, 1) && Overlap(s3, addr, 3, 4) && !SameSet(s3, 3, 4)
  {
    hide ThreePointers, AfterAdd, Grown, SameSet, Touches, Overlap, NextOutgrown;
    ThreeInOneSet(addr);
    var s1 := ThreePointers(ExactAlias(addr));
    FirstOfThreeDeleted(s1, addr);
    var s2 := CountedDown(Deleted(s1, 1), 0);
    OneSetApart(addr, s2, [2, 3], map[2 := PointerRec(0, 1), 3 := PointerRec(0, 4)], 4, 1, 3);
  }
}
