/** What alias sets remember about accesses: how their modified, referenced and volatile bits
    come from the pointers gathered in them. */
module AliasAccesses {
  import opened Wrappers
  import opened AliasSets
  import opened AliasSeparation
  import opened AliasInsertions

  /** The set a tracked pointer resolves to. */
  ghost predicate Tracked(s: State, v: Value) {
    v in s.pm && s.pm[v].set_ in s.root && s.root[s.pm[v].set_] in s.sets
  }

  ghost function SetFor(s: State, v: Value): AliasSet
    requires Tracked(s, v)
  {
    s.sets[s.root[s.pm[v].set_]]
  }

  ghost predicate Modified(s: State, v: Value) { Tracked(s, v) && SetFor(s, v).mod }
  ghost predicate Referenced(s: State, v: Value) { Tracked(s, v) && SetFor(s, v).ref }
  ghost predicate Volatile(s: State, v: Value) { Tracked(s, v) && SetFor(s, v).volatile }

  /** A live set is modified, referenced or volatile after some steps exactly if one of its
      pointers was in such a set before, or the access itself says so of set id. */
  ghost predicate AccessJoined(s: State, s': State, id: Option<Id>, mod: bool, ref: bool) {
    forall t | t in s'.sets && s'.sets[t].forward.None? ::
      && (s'.sets[t].mod <==> (mod && id == Some(t)) || exists w :: ResolvesTo(s', w, t) && Modified(s, w))
      && (s'.sets[t].ref <==> (ref && id == Some(t)) || exists w :: ResolvesTo(s', w, t) && Referenced(s, w))
      && (s'.sets[t].volatile <==> exists w :: ResolvesTo(s', w, t) && Volatile(s, w))
  }

  /** No recorded access of a pointer is forgotten. */
  ghost predicate AccessKept(s: State, s': State) {
    forall w | w in s.pm ::
      && (Modified(s, w) ==> Modified(s', w)) && (Referenced(s, w) ==> Referenced(s', w))
  }

  /** The pointers left have the accesses recorded that they had, or that the one they copy had. */
  ghost predicate AccessSame(s: State, s': State, to: Value, from: Value) {
    forall w | w in s'.pm ::
      var o := if w == to then from else w;
      && (Modified(s', w) <==> Modified(s, o)) && (Referenced(s', w) <==> Referenced(s, o)) && (Volatile(s', w) <==> Volatile(s, o))
  }

  lemma SameAccess(s: State, s': State, to: Value, from: Value)
    requires Consistent(s', None, None)
    requires forall w, t | w in s'.pm :: ResolvesTo(s', w, t) ==> ResolvesTo(s, if w == to then from else w, t)
    requires forall t | t in s'.sets && s'.sets[t].forward.None? :: SameBits(s, s', t)
    ensures AccessSame(s, s', to, from)
  {
    hide Consistent;
    forall w | w in s'.pm
      ensures var o := if w == to then from else w;
        && (Modified(s', w) <==> Modified(s, o)) && (Referenced(s', w) <==> Referenced(s, o)) && (Volatile(s', w) <==> Volatile(s, o))
    {
      SetOfEntry(s', None, None, w);
      RootIsTarget(s', None, None, s'.pm[w].set_);
      var t := s'.root[s'.pm[w].set_];
      assert ResolvesTo(s', w, t);
      assert SameBits(s, s', t);
    }
  }

  ghost predicate SameBits(s: State, s': State, t: Id)
    requires t in s'.sets
  {
    t in s.sets && s'.sets[t].mod == s.sets[t].mod && s'.sets[t].ref == s.sets[t].ref && s'.sets[t].volatile == s.sets[t].volatile
  }

  lemma JoinedKeeps(s: State, s': State, id: Option<Id>, mod: bool, ref: bool)
    requires Consistent(s', None, None) && AccessJoined(s, s', id, mod, ref) && s.pm.Keys <= s'.pm.Keys
    ensures AccessKept(s, s')
  {
    hide Consistent;
    forall w | w in s.pm
      ensures (Modified(s, w) ==> Modified(s', w)) && (Referenced(s, w) ==> Referenced(s', w))
    {
      assert w in s'.pm;
      SetOfEntry(s', None, None, w);
      RootIsTarget(s', None, None, s'.pm[w].set_);
      assert ResolvesTo(s', w, s'.root[s'.pm[w].set_]);
    }
  }

  lemma JoinedAt(s: State, s': State, t: Id)
    requires AccessJoined(s, s', None, false, false) && t in s'.sets && s'.sets[t].forward.None?
    ensures s'.sets[t].mod <==> exists w :: ResolvesTo(s', w, t) && Modified(s, w)
    ensures s'.sets[t].ref <==> exists w :: ResolvesTo(s', w, t) && Referenced(s, w)
    ensures s'.sets[t].volatile <==> exists w :: ResolvesTo(s', w, t) && Volatile(s, w)
  {
  }

  /** A live set has a pointer, so its bits are those of its pointers. */
  lemma JoinedFromStart(s: State)
    requires Consistent(s, None, None)
    ensures AccessJoined(s, s, None, false, false)
  {
    hide Consistent;
    forall t | t in s.sets && s.sets[t].forward.None?
      ensures s.sets[t].mod <==> exists w :: ResolvesTo(s, w, t) && Modified(s, w)
      ensures s.sets[t].ref <==> exists w :: ResolvesTo(s, w, t) && Referenced(s, w)
      ensures s.sets[t].volatile <==> exists w :: ResolvesTo(s, w, t) && Volatile(s, w)
    {
      SetOkAt(s, None, None, t);
      var v := HasMember(s, None, t);
    }
  }

  /** Shortened chains and dropped references change nothing. */
  lemma JoinedThenEquivalent(s: State, s1: State, s2: State)
    requires AccessJoined(s, s1, None, false, false) && Equivalent(s1, s2)
    ensures AccessJoined(s, s2, None, false, false)
  {
    hide AccessJoined, Modified, Referenced, Volatile;
    forall t | t in s2.sets && s2.sets[t].forward.None?
      ensures s2.sets[t].mod <==> exists w :: ResolvesTo(s2, w, t) && Modified(s, w)
      ensures s2.sets[t].ref <==> exists w :: ResolvesTo(s2, w, t) && Referenced(s, w)
      ensures s2.sets[t].volatile <==> exists w :: ResolvesTo(s2, w, t) && Volatile(s, w)
    {
      EquivalentAt(s1, s2, t);
      JoinedAt(s, s1, t);
      forall w ensures ResolvesTo(s2, w, t) <==> ResolvesTo(s1, w, t) {}
    }
    JoinedIf(s, s2);
  }

  lemma JoinedIf(s: State, s': State)
    requires forall t | t in s'.sets && s'.sets[t].forward.None? ::
      && (s'.sets[t].mod <==> exists w :: ResolvesTo(s', w, t) && Modified(s, w))
      && (s'.sets[t].ref <==> exists w :: ResolvesTo(s', w, t) && Referenced(s, w))
      && (s'.sets[t].volatile <==> exists w :: ResolvesTo(s', w, t) && Volatile(s, w))
    ensures AccessJoined(s, s', None, false, false)
  {
  }

  /** A merged set is accessed as either of the two was. */
  lemma JoinedThenMerged(s: State, s1: State, d: Id, x: Id, a: AliasLattice)
    requires Consistent(s1, None, None) && CanMerge(s1, d, x, a) && AccessJoined(s, s1, None, false, false)
    ensures AccessJoined(s, Merged(s1, d, x, a), None, false, false)
  {
    hide AccessJoined, Modified, Referenced, Volatile, Consistent, ResolvesTo;
    var s2 := Merged(s1, d, x, a);
    MergeResolves(s1, d, x, a, None);
    JoinedAt(s, s1, d);
    JoinedAt(s, s1, x);
    forall t | t in s2.sets && s2.sets[t].forward.None?
      ensures s2.sets[t].mod <==> exists w :: ResolvesTo(s2, w, t) && Modified(s, w)
      ensures s2.sets[t].ref <==> exists w :: ResolvesTo(s2, w, t) && Referenced(s, w)
      ensures s2.sets[t].volatile <==> exists w :: ResolvesTo(s2, w, t) && Volatile(s, w)
    {
      JoinedAt(s, s1, t);
    }
    JoinedIf(s, s2);
  }

  /** Steps that leave the sets and their members alone, apart from an empty, unaccessed new one. */
  lemma JoinedThenSame(s: State, s1: State, s2: State)
    requires AccessJoined(s, s1, None, false, false)
    requires forall w, t :: ResolvesTo(s2, w, t) <==> ResolvesTo(s1, w, t)
    requires forall t | t in s2.sets :: (t in s1.sets && s2.sets[t] == s1.sets[t]) || (s2.sets[t] == NEW_SET && forall w :: !ResolvesTo(s1, w, t))
    ensures AccessJoined(s, s2, None, false, false)
  {
    hide AccessJoined, Modified, Referenced, Volatile;
    forall t | t in s2.sets && s2.sets[t].forward.None?
      ensures s2.sets[t].mod <==> exists w :: ResolvesTo(s2, w, t) && Modified(s, w)
      ensures s2.sets[t].ref <==> exists w :: ResolvesTo(s2, w, t) && Referenced(s, w)
      ensures s2.sets[t].volatile <==> exists w :: ResolvesTo(s2, w, t) && Volatile(s, w)
    {
      if t in s1.sets && s2.sets[t] == s1.sets[t] {
        JoinedAt(s, s1, t);
      }
    }
    JoinedIf(s, s2);
  }

  lemma JoinedThenGrown(s: State, s1: State)
    requires Consistent(s1, None, None) && AccessJoined(s, s1, None, false, false)
    requires s1.any.Some? ==> s1.any.value in s1.sets
    ensures AccessJoined(s, Grown(s1, NEW_SET), None, false, false)
  {
    hide AccessJoined, Consistent;
    GrowConsistent(s1, NEW_SET);
    NotRoot(s1, s1.nextId);
    GrownApart(v => 0, s1, 0, 0, s1.nextId);
    JoinedThenSame(s, s1, Grown(s1, NEW_SET));
  }

  lemma JoinedThenResized(s: State, s1: State, v: Value, size: nat)
    requires AccessJoined(s, s1, None, false, false) && v in s1.pm
    ensures AccessJoined(s, Resized(s1, v, size), None, false, false)
  {
    hide AccessJoined;
    forall w, t ensures ResolvesTo(Resized(s1, v, size), w, t) <==> ResolvesTo(s1, w, t) {}
    JoinedThenSame(s, s1, Resized(s1, v, size));
  }

  /** A pointer added to a set brings no access of its own. */
  lemma JoinedThenAdded(s: State, s1: State, aa: Oracle, id: Id, v: Value, size: nat, knownMust: bool)
    requires AccessJoined(s, s1, None, false, false) && v !in s.pm && v !in s1.pm
    requires id in s1.sets && id in s1.root && s1.root[id] == id
    ensures AccessJoined(s, AfterAdd(aa, s1, id, v, size, knownMust), None, false, false)
  {
    var s2 := AfterAdd(aa, s1, id, v, size, knownMust);
    forall t | t in s2.sets ensures t in s1.sets && s2.sets[t].forward == s1.sets[t].forward && s2.sets[t].mod == s1.sets[t].mod
      && s2.sets[t].ref == s1.sets[t].ref && s2.sets[t].volatile == s1.sets[t].volatile {}
    forall w, t ensures ResolvesTo(s2, w, t) <==> if w == v then t == id else ResolvesTo(s1, w, t) {}
    hide AccessJoined, AfterAdd, SetFor;
    forall t | t in s2.sets && s2.sets[t].forward.None?
      ensures s2.sets[t].mod <==> exists w :: ResolvesTo(s2, w, t) && Modified(s, w)
      ensures s2.sets[t].ref <==> exists w :: ResolvesTo(s2, w, t) && Referenced(s, w)
      ensures s2.sets[t].volatile <==> exists w :: ResolvesTo(s2, w, t) && Volatile(s, w)
    {
      JoinedAt(s, s1, t);
      assert !Modified(s, v) && !Referenced(s, v) && !Volatile(s, v);
    }
    JoinedIf(s, s2);
  }

  /** Merging whatever a pointer touches. */
  lemma {:induction false} GatherJoins(aa: Oracle, s: State, s0: State, v: Value, size: nat, n: nat)
    requires Consistent(s, None, None) && s.any.None? && AccessJoined(s0, s, None, false, false)
    ensures AccessJoined(s0, Gather(aa, s, v, size, n).0, None, false, false)
  {
    hide Consistent, AccessJoined, Touches, Merged;
    if n > 0 {
      GatherJoins(aa, s, s0, v, size, n - 1);
      GatherOk(aa, s, v, size, n - 1);
      var (s1, found) := Gather(aa, s, v, size, n - 1);
      if found.Some? && n - 1 in s1.sets && s1.sets[n - 1].forward.None? && found.value in s1.sets && found.value != n - 1 {
        SetOkAt(s1, None, None, found.value);
        SetOkAt(s1, None, None, n - 1);
        JoinedThenMerged(s0, s1, found.value, n - 1, KindAfterMerge(aa, s1, found.value, n - 1));
      }
    }
  }

  /** An insertion joins the accesses of the sets it merges, and no others. */
  lemma InsertJoins(aa: Oracle, s: State, v: Value, size: nat)
    requires Consistent(s, None, None) && s.any.None? && v !in s.pm
    ensures AccessJoined(s, AfterInsert(aa, s, v, size), None, false, false)
  {
    hide Consistent, AccessJoined, Gathered, Gather, AfterAdd;
    var (s1, found) := Gather(aa, s, v, size, s.nextId);
    JoinedFromStart(s);
    GatherJoins(aa, s, s, v, size, s.nextId);
    GatherOk(aa, s, v, size, s.nextId);
    GatheredEnds(aa, s, s1, v, size, found);
    if found.Some? {
      SetOkAt(s1, None, None, found.value);
      JoinedThenAdded(s, s1, aa, found.value, v, size, false);
    } else {
      JoinedThenGrown(s, s1);
      JoinedThenAdded(s, Grown(s1, NEW_SET), aa, s1.nextId, v, size, false);
    }
  }

  // ----- What merging and adding do to one set -----

  ghost predicate FirstKnownIn(s: State, t: Id) {
    t in s.sets && s.sets[t].ptrs != [] && s.sets[t].ptrs[0] in s.pm
  }

  /** What the analysis says about the first pointer of a set and an access. */
  ghost function FirstAnswer(aa: Oracle, s: State, t: Id, v: Value, size: nat): AliasResult
    requires FirstKnownIn(s, t)
  {
    aa(s.sets[t].ptrs[0], s.pm[s.sets[t].ptrs[0]].size, v, size)
  }

  ghost predicate BothMust(s: State, d: Id, x: Id)
    requires d in s.sets && x in s.sets
  {
    s.sets[d].alias == SetMustAlias && s.sets[x].alias == SetMustAlias
  }

  /** Set d now has every access d and x had. */
  ghost predicate BothAccessed(before: Sets, after: Sets, d: Id, x: Id) {
    && d in before && x in before && d in after
    && (after[d].mod <==> before[d].mod || before[x].mod) && (after[d].ref <==> before[d].ref || before[x].ref)
    && (after[d].volatile <==> before[d].volatile || before[x].volatile)
  }

  lemma MergeBits(s: State, d: Id, x: Id, a: AliasLattice)
    requires d in s.sets && x in s.sets && d != x
    ensures BothAccessed(s.sets, Merged(s, d, x, a).sets, d, x)
  {
  }

  /** Two sets merged: every access of both, their pointers in order, and a must-alias set only
      if both were and the analysis says so of their first pointers. */
  lemma MergeGathers(aa: Oracle, s: State, d: Id, x: Id)
    requires FirstKnownIn(s, d) && FirstKnownIn(s, x) && d != x
    ensures var s' := Merged(s, d, x, KindAfterMerge(aa, s, d, x));
      var D, X, E := s.sets[d], s.sets[x], s'.sets[d];
      && BothAccessed(s.sets, s'.sets, d, x) && E.ptrs == D.ptrs + X.ptrs && s'.sets[x].ptrs == [] && s'.sets[x].forward == Some(d)
      && (E.alias == SetMustAlias <==> BothMust(s, d, x) && FirstAnswer(aa, s, d, X.ptrs[0], s.pm[X.ptrs[0]].size) == MustAlias)
      && forall t | t != d && t != x :: t in s'.sets <==> t in s.sets && s'.sets[t] == s.sets[t]
  {
  }

  /** A pointer added: no access, last in the list, and still a must-alias set only if it is
      known to belong there, is the first one, or the analysis says so of the first one. */
  lemma AddGathers(aa: Oracle, s: State, t: Id, v: Value, size: nat, knownMust: bool)
    requires t in s.sets && (s.sets[t].ptrs != [] ==> FirstKnownIn(s, t)) && v !in s.pm
    ensures var s' := AfterAdd(aa, s, t, v, size, knownMust);
      var T, E := s.sets[t], s'.sets[t];
      && E.mod == T.mod && E.ref == T.ref && E.volatile == T.volatile
      && E.ptrs == T.ptrs + [v] && s'.pm[v] == PointerRec(t, size)
      && (T.alias == SetMayAlias ==> E.alias == SetMayAlias)
      && (T.alias == SetMustAlias ==>
        (E.alias == SetMustAlias <==> knownMust || T.ptrs == [] || FirstAnswer(aa, s, t, v, size) == MustAlias))
      && forall u | u != t :: u in s'.sets <==> u in s.sets && s'.sets[u] == s.sets[u]
  {
  }

  // ----- Saturation -----

  /** The pointers in may-alias sets. */
  ghost function MayPointers(s: State): set<Value> {
    set v | v in s.pm && Tracked(s, v) && SetFor(s, v).alias == SetMayAlias
  }

  ghost function Members(ps: seq<Value>): set<Value> { set v | v in ps }

  /** The pointers on the lists of may-alias sets older than n. */
  ghost function MayListed(s: State, n: nat): set<Value> {
    if n == 0 then {}
    else MayListed(s, n - 1) + if n - 1 in s.sets && s.sets[n - 1].alias == SetMayAlias then Members(s.sets[n - 1].ptrs) else {}
  }

  lemma {:induction false} ListCount(ps: seq<Value>)
    ensures |Members(ps)| <= |ps|
  {
    if ps != [] {
      ListCount(ps[1..]);
      assert Members(ps) == {ps[0]} + Members(ps[1..]);
    }
  }

  lemma {:induction false} MayListedCount(s: State, n: nat)
    requires Consistent(s, None, None)
    ensures |MayListed(s, n)| <= SumMay(s.sets, n)
  {
    hide Consistent, Members;
    if n > 0 {
      MayListedCount(s, n - 1);
      if n - 1 in s.sets {
        SetOkAt(s, None, None, n - 1);
        ListCount(s.sets[n - 1].ptrs);
      }
    }
  }

  lemma {:induction false} MayListedHas(s: State, n: nat, t: Id, v: Value)
    requires t in s.sets && 0 <= t < n && s.sets[t].alias == SetMayAlias && v in s.sets[t].ptrs
    ensures v in MayListed(s, n)
  {
    if t < n - 1 {
      MayListedHas(s, n - 1, t, v);
    }
  }

  /** The size that triggers saturation is never less than the number of pointers in may-alias sets. */
  lemma MayPointersCounted(s: State)
    requires Consistent(s, None, None)
    ensures |MayPointers(s)| <= s.total
  {
    forall v | v in MayPointers(s) ensures v in MayListed(s, s.nextId) {
      var t := s.root[s.pm[v].set_];
      RootIsTarget(s, None, None, s.pm[v].set_);
      SetOkAt(s, None, None, t);
      assert ResolvesTo(s, v, t);
      MayListedHas(s, s.nextId, t, v);
    }
    MayListedCount(s, s.nextId);
    FewerIn(MayPointers(s), MayListed(s, s.nextId));
  }

  lemma FewerIn(a: set<Value>, b: set<Value>)
    requires a <= b
    ensures |a| <= |b|
  {
    assert b == a + (b - a);
  }
}
