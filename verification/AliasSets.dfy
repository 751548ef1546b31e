/** The data of an alias set tracker, its invariants, and the facts about reference counts,
    forwarding and sizes that its operations rest on. */
module AliasSets {
  import opened Wrappers

  type Value = int
  type Id = int

  datatype AliasResult = NoAlias | MayAlias | PartialAlias | MustAlias
  datatype AliasLattice = SetMustAlias | SetMayAlias

  /** A set is known by its creation number, which is also its place in the tracker's list.
      `ptrs` is the intrusive list of pointer records. */
  datatype AliasSet = AliasSet(
    ptrs: seq<Value>,
    forward: Option<Id>,
    refCount: nat,
    aliasAny: bool,
    mod: bool,
    ref: bool,
    alias: AliasLattice,
    volatile: bool,
    setSize: nat)

  const NEW_SET := AliasSet([], None, 0, false, false, false, SetMustAlias, false, 0)

  datatype PointerRec = PointerRec(set_: Id, size: nat)

  type Sets = map<Id, AliasSet>
  type Pointers = map<Value, PointerRec>

  // ----- References -----

  ghost function EntriesOf(pm: Pointers, id: Id): set<Value> { set v | v in pm && pm[v].set_ == id }
  ghost function ForwardersOf(sets: Sets, id: Id): set<Id> { set t | t in sets && sets[t].forward == Some(id) }

  /** Who names a set: the pointer records in it and the sets forwarding to it. */
  ghost function Refs(sets: Sets, pm: Pointers, id: Id): nat {
    |EntriesOf(pm, id)| + |ForwardersOf(sets, id)|
  }

  function ForwardOf(sets: Sets, t: Id): Option<Id> { if t in sets then sets[t].forward else None }
  function SetOf(pm: Pointers, v: Value): Option<Id> { if v in pm then Some(pm[v].set_) else None }

  function Unit(b: bool): nat { if b then 1 else 0 }

  /** Changing one set changes the references by its old and its new forwarding pointer. */
  lemma RefsAfterSet(sets: Sets, sets': Sets, pm: Pointers, t: Id, id: Id)
    requires forall u | u != t :: ForwardOf(sets', u) == ForwardOf(sets, u)
    ensures Refs(sets', pm, id) + Unit(ForwardOf(sets, t) == Some(id)) == Refs(sets, pm, id) + Unit(ForwardOf(sets', t) == Some(id))
  {
    var f, f' := ForwardersOf(sets, id), ForwardersOf(sets', id);
    forall u | u != t ensures u in f <==> u in f' {
      assert ForwardOf(sets', u) == ForwardOf(sets, u);
    }
    assert t in f <==> ForwardOf(sets, t) == Some(id);
    assert t in f' <==> ForwardOf(sets', t) == Some(id);
    assert f - {t} == f' - {t};
    assert |f| == |f - {t}| + Unit(t in f);
    assert |f'| == |f' - {t}| + Unit(t in f');
  }

  /** Changing one pointer record changes the references by its old and its new set. */
  lemma RefsAfterEntry(sets: Sets, pm: Pointers, pm': Pointers, v: Value, id: Id)
    requires forall w | w != v :: SetOf(pm', w) == SetOf(pm, w)
    ensures Refs(sets, pm', id) + Unit(SetOf(pm, v) == Some(id)) == Refs(sets, pm, id) + Unit(SetOf(pm', v) == Some(id))
  {
    var e, e' := EntriesOf(pm, id), EntriesOf(pm', id);
    forall w | w != v ensures w in e <==> w in e' {
      assert SetOf(pm', w) == SetOf(pm, w);
    }
    assert v in e <==> SetOf(pm, v) == Some(id);
    assert v in e' <==> SetOf(pm', v) == Some(id);
    assert e - {v} == e' - {v};
    assert |e| == |e - {v}| + Unit(v in e);
    assert |e'| == |e' - {v}| + Unit(v in e');
  }

  lemma RefsNamed(sets: Sets, pm: Pointers, id: Id)
    ensures Refs(sets, pm, id) == 0 <==> (forall v | v in pm :: pm[v].set_ != id) && (forall t | t in sets :: sets[t].forward != Some(id))
  {
    var e, f := EntriesOf(pm, id), ForwardersOf(sets, id);
    if (forall v | v in pm :: pm[v].set_ != id) && (forall t | t in sets :: sets[t].forward != Some(id)) {
      assert e == {} && f == {};
    } else if exists v :: v in pm && pm[v].set_ == id {
      var v :| v in pm && pm[v].set_ == id;
      assert v in e;
    } else {
      var t :| t in sets && sets[t].forward == Some(id);
      assert t in f;
    }
  }

  // ----- The size of the may-alias sets -----

  function MaySize(sets: Sets, t: Id): nat {
    if t in sets && sets[t].alias == SetMayAlias then sets[t].setSize else 0
  }

  function SumMay(sets: Sets, n: nat): nat {
    if n == 0 then 0 else SumMay(sets, n - 1) + MaySize(sets, n - 1)
  }

  lemma {:induction false} SumMayUpdate(sets: Sets, sets': Sets, t: Id, n: nat)
    requires forall u | u != t :: MaySize(sets', u) == MaySize(sets, u)
    ensures SumMay(sets', n) + Unit(0 <= t < n) * MaySize(sets, t) == SumMay(sets, n) + Unit(0 <= t < n) * MaySize(sets', t)
  {
    if n > 0 {
      SumMayUpdate(sets, sets', t, n - 1);
    }
  }

  lemma {:induction false} SumMaySame(sets: Sets, sets': Sets, n: nat)
    requires forall u :: MaySize(sets', u) == MaySize(sets, u)
    ensures SumMay(sets', n) == SumMay(sets, n)
  {
    if n > 0 {
      SumMaySame(sets, sets', n - 1);
    }
  }

  lemma {:induction false} SumMayEmpty(sets: Sets, n: nat)
    requires SumMay(sets, n) > 0
    ensures exists t :: t in sets && t < n && sets[t].alias == SetMayAlias && sets[t].setSize > 0
  {
    if MaySize(sets, n - 1) == 0 {
      SumMayEmpty(sets, n - 1);
    } else {
      assert n - 1 in sets;
    }
  }

  // ----- The invariant -----

  /** A snapshot of a tracker: its sets, its pointer map, the ghost map of forwarding
      targets, the next creation number, the catch-all set and the total may-alias size. */
  datatype State = State(sets: Sets, pm: Pointers, root: map<Id, Id>, nextId: nat, any: Option<Id>, total: int)

  ghost predicate NoDup(ps: seq<Value>) {
    forall i, j | 0 <= i < j < |ps| :: ps[i] != ps[j]
  }

  lemma NoDupConcat(ps: seq<Value>, qs: seq<Value>)
    requires NoDup(ps) && NoDup(qs) && forall v | v in ps :: v !in qs
    ensures NoDup(ps + qs)
  {
    forall i, j | 0 <= i < j < |ps + qs| ensures (ps + qs)[i] != (ps + qs)[j] {
      if i < |ps| <= j {
        assert ps[i] in ps && qs[j - |ps|] in qs;
      }
    }
  }

  /** The record of pointer v names set t, directly or through forwarding. */
  ghost predicate ResolvesTo(s: State, v: Value, t: Id) {
    v in s.pm && s.pm[v].set_ in s.root && s.root[s.pm[v].set_] == t
  }

  /** A set forwards to an older one, or to the catch-all set of a saturated tracker; the
      catch-all set itself never forwards, so forwarding cannot go round in a circle. */
  ghost predicate ForwardOk(s: State, t: Id)
    requires t in s.sets
  {
    t in s.root &&
    match s.sets[t].forward
    case None => s.root[t] == t
    case Some(f) =>
      && f in s.sets && t != f && s.any != Some(t) && (f < t || s.any == Some(f))
      && f in s.root && s.root[t] == s.root[f]
      && s.sets[t].ptrs == [] && s.sets[t].setSize == 0
  }

  /** The list of a set holds exactly the pointers whose records resolve to it. */
  ghost predicate ListOk(s: State, t: Id)
    requires t in s.sets
  {
    && NoDup(s.sets[t].ptrs) && |s.sets[t].ptrs| <= s.sets[t].setSize
    && forall v :: v in s.sets[t].ptrs <==> ResolvesTo(s, v, t)
  }

  /** The reference count is exact, but for one reference still to be dropped, and only a set
      just being created may have none. */
  ghost predicate CountOk(s: State, owed: Option<Id>, newborn: Option<Id>, t: Id)
    requires t in s.sets
  {
    && s.sets[t].refCount == Refs(s.sets, s.pm, t) + Unit(owed == Some(t))
    && (if newborn == Some(t) then s.sets[t].forward.None? else s.sets[t].refCount > 0)
  }

  ghost predicate SetOk(s: State, owed: Option<Id>, newborn: Option<Id>, t: Id) {
    && t in s.sets && 0 <= t < s.nextId
    && (s.sets[t].aliasAny <==> s.any == Some(t))
    && ForwardOk(s, t) && ListOk(s, t) && CountOk(s, owed, newborn, t)
  }

  ghost predicate Consistent(s: State, owed: Option<Id>, newborn: Option<Id>) {
    && s.root.Keys == s.sets.Keys
    && (forall v | v in s.pm :: s.pm[v].set_ in s.sets)
    && (forall t {:trigger SetOk(s, owed, newborn, t)} | t in s.sets :: SetOk(s, owed, newborn, t))
    && s.total == SumMay(s.sets, s.nextId)
  }

  lemma SetOkAt(s: State, owed: Option<Id>, newborn: Option<Id>, t: Id)
    requires Consistent(s, owed, newborn) && t in s.sets
    ensures SetOk(s, owed, newborn, t)
  {
  }

  lemma SetOfEntry(s: State, owed: Option<Id>, newborn: Option<Id>, v: Value)
    requires Consistent(s, owed, newborn) && v in s.pm
    ensures s.pm[v].set_ in s.sets && s.pm[v].set_ in s.root
  {
  }

  /** Where following the forwarding pointers from a set ends. */
  ghost function Target(s: State, owed: Option<Id>, newborn: Option<Id>, t: Id): Id
    requires Consistent(s, owed, newborn) && t in s.sets
    decreases if s.any == Some(t) then 0 else t + 1
  {
    assert SetOk(s, owed, newborn, t);
    if s.sets[t].forward.None? then t else Target(s, owed, newborn, s.sets[t].forward.value)
  }

  /** The ghost map is what following the pointers gives; the target of a forwarding set does
      not forward, and is older than the set or the catch-all set. */
  lemma {:induction false} RootIsTarget(s: State, owed: Option<Id>, newborn: Option<Id>, t: Id)
    requires Consistent(s, owed, newborn) && t in s.sets
    ensures s.root[t] == Target(s, owed, newborn, t)
    ensures s.root[t] in s.sets && s.sets[s.root[t]].forward.None? && s.root[s.root[t]] == s.root[t]
    ensures s.root[t] <= t || s.any == Some(s.root[t])
    ensures s.sets[t].forward.Some? ==> s.root[t] != t
    decreases if s.any == Some(t) then 0 else t + 1
  {
    assert SetOk(s, owed, newborn, t);
    if s.sets[t].forward.Some? {
      assert SetOk(s, owed, newborn, s.sets[t].forward.value);
      RootIsTarget(s, owed, newborn, s.sets[t].forward.value);
    }
  }

  /** A set that something else resolves to is named by a forwarding pointer. */
  lemma {:induction false} ResolvedIsForwardedTo(s: State, owed: Option<Id>, newborn: Option<Id>, t: Id, id: Id)
    requires Consistent(s, owed, newborn)
    requires t in s.sets && t != id && s.root[t] == id
    ensures exists u :: u in s.sets && s.sets[u].forward == Some(id)
    decreases if s.any == Some(t) then 0 else t + 1
  {
    assert SetOk(s, owed, newborn, t);
    var f := s.sets[t].forward.value;
    if f != id {
      ResolvedIsForwardedTo(s, owed, newborn, f, id);
    }
  }

  /** Every referenced set has a pointer that resolves to what it resolves to. */
  lemma {:induction false} HasMember(s: State, newborn: Option<Id>, t: Id) returns (v: Value)
    requires Consistent(s, None, newborn) && t in s.sets && s.sets[t].refCount > 0
    ensures ResolvesTo(s, v, s.root[t])
    decreases if s.any == Some(t) then s.nextId + 1 else s.nextId - t
  {
    assert SetOk(s, None, newborn, t);
    RefsNamed(s.sets, s.pm, t);
    if exists w :: w in s.pm && s.pm[w].set_ == t {
      v :| v in s.pm && s.pm[v].set_ == t;
    } else {
      var u :| u in s.sets && s.sets[u].forward == Some(t);
      assert SetOk(s, None, newborn, u);
      v := HasMember(s, newborn, u);
    }
  }

  /** A live set that does not forward is not empty. */
  lemma NotEmpty(s: State, newborn: Option<Id>, t: Id)
    requires Consistent(s, None, newborn)
    requires t in s.sets && s.sets[t].forward.None? && s.sets[t].refCount > 0
    ensures s.sets[t].ptrs != []
  {
    assert SetOk(s, None, newborn, t);
    var v := HasMember(s, newborn, t);
    assert v in s.sets[t].ptrs;
  }

  // ----- The effect of each operation on the invariant -----

  /** Same pointers with the same sizes in the same groups, same lists and flags: the two
      states differ only in reference counts, shortened forwarding chains and dead sets. */
  ghost predicate Equivalent(s: State, s': State) {
    && s'.nextId == s.nextId && s'.any == s.any
    && s'.pm.Keys == s.pm.Keys
    && (forall v | v in s.pm :: s'.pm[v].size == s.pm[v].size)
    && (forall v, t :: ResolvesTo(s', v, t) <==> ResolvesTo(s, v, t))
    && (forall t | t in s'.sets ::
          && t in s.sets
          && s'.sets[t] == s.sets[t].(refCount := s'.sets[t].refCount, forward := s'.sets[t].forward)
          && (s'.sets[t].forward.None? <==> s.sets[t].forward.None?)
          && (s'.sets[t].forward == s.sets[t].forward || (t in s.root && s'.sets[t].forward == Some(s.root[t]))))
    && (forall t | t in s'.root :: t in s.root && s'.root[t] == s.root[t])
  }

  lemma EquivalentTrans(s: State, s': State, s'': State)
    requires Equivalent(s, s') && Equivalent(s', s'')
    ensures Equivalent(s, s'')
  {
  }

  lemma EquivalentRefl(s: State)
    ensures Equivalent(s, s)
  {
  }

  lemma EquivalentAt(s: State, s': State, t: Id)
    requires Equivalent(s, s')
    ensures s'.nextId == s.nextId && s'.any == s.any && s'.pm.Keys == s.pm.Keys
    ensures t in s'.sets ==>
      && t in s.sets && (s'.sets[t].forward.None? <==> s.sets[t].forward.None?)
      && (s'.sets[t].forward == s.sets[t].forward || (t in s.root && s'.sets[t].forward == Some(s.root[t])))
      && s'.sets[t] == s.sets[t].(refCount := s'.sets[t].refCount, forward := s'.sets[t].forward)
    ensures t in s'.root ==> t in s.root && s'.root[t] == s.root[t]
  {
  }

  lemma SizesStay(s: State, s': State)
    requires Equivalent(s, s')
    ensures s'.pm.Keys == s.pm.Keys && s'.any == s.any
    ensures forall w | w in s.pm :: w in s'.pm && s'.pm[w].size == s.pm[w].size
    ensures forall w | w in s'.pm :: w in s.pm
  {
    forall w | w in s.pm ensures w in s'.pm { assert w in s.pm.Keys; }
    forall w | w in s'.pm ensures w in s.pm { assert w in s'.pm.Keys; }
  }

  function CountedDown(s: State, id: Id): State
    requires id in s.sets && s.sets[id].refCount > 0
  {
    s.(sets := s.sets[id := s.sets[id].(refCount := s.sets[id].refCount - 1)])
  }

  lemma CountDownSetOk(s: State, id: Id, newborn: Option<Id>, t: Id)
    requires Consistent(s, Some(id), newborn) && id in s.sets && s.sets[id].refCount > 1 && t in s.sets
    ensures SetOk(CountedDown(s, id), None, newborn, t)
  {
    var s' := CountedDown(s, id);
    forall v, t ensures ResolvesTo(s', v, t) <==> ResolvesTo(s, v, t) {}
    assert SetOk(s, Some(id), newborn, t);
    RefsAfterSet(s.sets, s'.sets, s.pm, id, t);
  }

  /** Dropping a reference that is not the last one. */
  lemma CountDown(s: State, id: Id, newborn: Option<Id>)
    requires Consistent(s, Some(id), newborn) && id in s.sets && s.sets[id].refCount > 1
    ensures Consistent(CountedDown(s, id), None, newborn) && Equivalent(s, CountedDown(s, id))
  {
    var s' := CountedDown(s, id);
    forall t | t in s'.sets ensures SetOk(s', None, newborn, t) {
      CountDownSetOk(s, id, newborn, t);
    }
    SumMaySame(s.sets, s'.sets, s.nextId);
  }

  function Erased(s: State, id: Id): State {
    s.(sets := s.sets - {id}, root := s.root - {id}, total := s.total - MaySize(s.sets, id))
  }

  /** Dropping the last reference to a set: it goes, and with it its own forwarding reference. */
  lemma EraseLast(s: State, id: Id, newborn: Option<Id>)
    requires Consistent(s, Some(id), newborn) && id in s.sets && s.sets[id].refCount == 1
    ensures Consistent(Erased(s, id), s.sets[id].forward, newborn) && Equivalent(s, Erased(s, id))
  {
    var s' := Erased(s, id);
    assert SetOk(s, Some(id), newborn, id);
    RefsNamed(s.sets, s.pm, id);
    forall v, t ensures ResolvesTo(s', v, t) <==> ResolvesTo(s, v, t) {}
    forall t | t in s'.sets ensures SetOk(s', s.sets[id].forward, newborn, t) {
      assert SetOk(s, Some(id), newborn, t);
      RefsAfterSet(s.sets, s'.sets, s.pm, id, t);
    }
    SumMayUpdate(s.sets, s'.sets, id, s.nextId);
  }

  function Redirected(s: State, t: Id, d: Id): State
    requires t in s.sets && d in s.sets
  {
    var sets1 := s.sets[d := s.sets[d].(refCount := s.sets[d].refCount + 1)];
    s.(sets := sets1[t := sets1[t].(forward := Some(d))])
  }

  lemma RedirectSetOk(s: State, t: Id, newborn: Option<Id>, u: Id)
    requires Consistent(s, None, newborn) && t in s.sets && s.sets[t].forward.Some? && s.root[t] in s.sets && u in s.sets
    ensures SetOk(Redirected(s, t, s.root[t]), s.sets[t].forward, newborn, u)
  {
    RootIsTarget(s, None, newborn, t);
    var d := s.root[t];
    var s' := Redirected(s, t, d);
    forall v, u ensures ResolvesTo(s', v, u) <==> ResolvesTo(s, v, u) {}
    assert SetOk(s, None, newborn, u) && SetOk(s, None, newborn, t);
    RefsAfterSet(s.sets, s'.sets, s.pm, t, u);
  }

  /** Path compression: a forwarding set is pointed straight at its target; the reference to
      the set it forwarded to is owed. */
  lemma Redirect(s: State, t: Id, newborn: Option<Id>)
    requires Consistent(s, None, newborn) && t in s.sets && s.sets[t].forward.Some?
    ensures s.root[t] in s.sets
    ensures Consistent(Redirected(s, t, s.root[t]), s.sets[t].forward, newborn)
    ensures Equivalent(s, Redirected(s, t, s.root[t]))
  {
    RootIsTarget(s, None, newborn, t);
    var s' := Redirected(s, t, s.root[t]);
    forall u | u in s'.sets ensures SetOk(s', s.sets[t].forward, newborn, u) {
      RedirectSetOk(s, t, newborn, u);
    }
    RedirectEquivalent(s, t, s.root[t]);
  }

  lemma RedirectEquivalent(s: State, t: Id, d: Id)
    requires t in s.sets && d in s.sets && s.sets[t].forward.Some? && t in s.root && s.root[t] == d
    ensures Equivalent(s, Redirected(s, t, d))
    ensures SumMay(Redirected(s, t, d).sets, s.nextId) == SumMay(s.sets, s.nextId)
  {
    var s' := Redirected(s, t, d);
    forall v, u ensures ResolvesTo(s', v, u) <==> ResolvesTo(s, v, u) {}
    SumMaySame(s.sets, s'.sets, s.nextId);
  }

  function Renamed(s: State, v: Value, d: Id): State
    requires v in s.pm && d in s.sets
  {
    s.(sets := s.sets[d := s.sets[d].(refCount := s.sets[d].refCount + 1)], pm := s.pm[v := s.pm[v].(set_ := d)])
  }

  lemma RenameSetOk(s: State, v: Value, newborn: Option<Id>, u: Id)
    requires Consistent(s, None, newborn) && v in s.pm && s.root[s.pm[v].set_] in s.sets && u in s.sets
    ensures SetOk(Renamed(s, v, s.root[s.pm[v].set_]), Some(s.pm[v].set_), newborn, u)
  {
    RootIsTarget(s, None, newborn, s.pm[v].set_);
    var s' := Renamed(s, v, s.root[s.pm[v].set_]);
    forall w, u ensures ResolvesTo(s', w, u) <==> ResolvesTo(s, w, u) {}
    assert SetOk(s, None, newborn, u);
    RefsAfterSet(s.sets, s'.sets, s.pm, s.root[s.pm[v].set_], u);
    RefsAfterEntry(s'.sets, s.pm, s'.pm, v, u);
  }

  /** A pointer record is pointed straight at the target of its set. */
  lemma Rename(s: State, v: Value, newborn: Option<Id>)
    requires Consistent(s, None, newborn) && v in s.pm
    ensures s.root[s.pm[v].set_] in s.sets
    ensures var s' := Renamed(s, v, s.root[s.pm[v].set_]);
      Consistent(s', Some(s.pm[v].set_), newborn) && Equivalent(s, s')
  {
    RootIsTarget(s, None, newborn, s.pm[v].set_);
    var s' := Renamed(s, v, s.root[s.pm[v].set_]);
    forall u | u in s'.sets ensures SetOk(s', Some(s.pm[v].set_), newborn, u) {
      RenameSetOk(s, v, newborn, u);
    }
    SumMaySame(s.sets, s'.sets, s.nextId);
    forall w, u ensures ResolvesTo(s', w, u) <==> ResolvesTo(s, w, u) {}
  }

  // ----- Merging -----

  function Join(a: AliasLattice, b: AliasLattice): AliasLattice {
    if a == SetMustAlias && b == SetMustAlias then SetMustAlias else SetMayAlias
  }

  /** The two sets after x is merged into d, with alias kind a. */
  function MergedInto(D: AliasSet, X: AliasSet, a: AliasLattice): AliasSet {
    D.(ptrs := D.ptrs + X.ptrs, setSize := D.setSize + X.setSize, refCount := D.refCount + 1, alias := a,
       mod := D.mod || X.mod, ref := D.ref || X.ref, volatile := D.volatile || X.volatile)
  }

  function MergedAway(X: AliasSet, d: Id): AliasSet {
    X.(forward := Some(d), ptrs := [], setSize := 0)
  }

  /** The may-alias size a merge adds. */
  function NewlyMay(D: AliasSet, X: AliasSet, a: AliasLattice): nat {
    if a == SetMustAlias then 0
    else (if D.alias == SetMustAlias then D.setSize else 0) + (if X.alias == SetMustAlias then X.setSize else 0)
  }

  function Reroot(root: map<Id, Id>, x: Id, d: Id): map<Id, Id> {
    map t | t in root :: if root[t] == x then d else root[t]
  }

  /** What merging two live sets leaves: x forwards to d, which has the pointers of both and
      alias kind a. */
  function Merged(s: State, d: Id, x: Id, a: AliasLattice): State
    requires d in s.sets && x in s.sets && d != x
  {
    var D, X := s.sets[d], s.sets[x];
    s.(sets := s.sets[d := MergedInto(D, X, a)][x := MergedAway(X, d)],
       root := Reroot(s.root, x, d), total := s.total + NewlyMay(D, X, a))
  }

  ghost predicate CanMerge(s: State, d: Id, x: Id, a: AliasLattice) {
    && d in s.sets && x in s.sets && d != x
    && s.sets[d].forward.None? && s.sets[x].forward.None?
    && (d < x || s.any == Some(d)) && s.any != Some(x)
    && (a == SetMustAlias ==> Join(s.sets[d].alias, s.sets[x].alias) == SetMustAlias)
  }

  lemma MergeResolves(s: State, d: Id, x: Id, a: AliasLattice, newborn: Option<Id>)
    requires Consistent(s, None, newborn) && CanMerge(s, d, x, a)
    ensures forall v, t :: ResolvesTo(Merged(s, d, x, a), v, t) <==>
      if t == d then ResolvesTo(s, v, d) || ResolvesTo(s, v, x) else t != x && ResolvesTo(s, v, t)
  {
  }

  lemma MergeSetOk(s: State, d: Id, x: Id, a: AliasLattice, newborn: Option<Id>, t: Id)
    requires Consistent(s, None, newborn) && CanMerge(s, d, x, a) && newborn != Some(x) && t in s.sets
    ensures SetOk(Merged(s, d, x, a), None, newborn, t)
  {
    var s' := Merged(s, d, x, a);
    MergeResolves(s, d, x, a, newborn);
    assert SetOk(s, None, newborn, t) && SetOk(s, None, newborn, d) && SetOk(s, None, newborn, x);
    RefsAfterSet(s.sets, s'.sets, s.pm, x, t);
    assert CountOk(s', None, newborn, t);
    assert ForwardOk(s', t);
    if t == d {
      assert forall v :: v in s.sets[d].ptrs ==> ResolvesTo(s, v, d) && v !in s.sets[x].ptrs;
      NoDupConcat(s.sets[d].ptrs, s.sets[x].ptrs);
    }
    assert ListOk(s', t);
  }

  lemma MergeConsistent(s: State, d: Id, x: Id, a: AliasLattice, newborn: Option<Id>)
    requires Consistent(s, None, newborn) && CanMerge(s, d, x, a) && newborn != Some(x)
    ensures Consistent(Merged(s, d, x, a), None, newborn)
  {
    var s' := Merged(s, d, x, a);
    forall t | t in s'.sets ensures SetOk(s', None, newborn, t) {
      MergeSetOk(s, d, x, a, newborn, t);
    }
    assert SetOk(s, None, newborn, d) && SetOk(s, None, newborn, x);
    MergeTotal(s, d, x, a);
    forall v | v in s'.pm ensures s'.pm[v].set_ in s'.sets {}
  }

  lemma MergeTotal(s: State, d: Id, x: Id, a: AliasLattice)
    requires 0 <= d < s.nextId && 0 <= x < s.nextId && CanMerge(s, d, x, a) && s.total == SumMay(s.sets, s.nextId)
    ensures Merged(s, d, x, a).total == SumMay(Merged(s, d, x, a).sets, s.nextId)
  {
    var s' := Merged(s, d, x, a);
    var sets1 := s.sets[d := s'.sets[d]];
    SumMayUpdate(s.sets, sets1, d, s.nextId);
    SumMayUpdate(sets1, s'.sets, x, s.nextId);
  }

  // ----- Adding and deleting pointers -----

  /** What adding pointer v to live set t leaves; with alias kind a for the set. */
  function Added(s: State, t: Id, v: Value, size: nat, a: AliasLattice): State
    requires t in s.sets
  {
    var T := s.sets[t];
    s.(sets := s.sets[t := T.(ptrs := T.ptrs + [v], setSize := T.setSize + 1, refCount := T.refCount + 1, alias := a)],
       pm := s.pm[v := PointerRec(t, size)],
       total := s.total + (if a == SetMayAlias then (if T.alias == SetMustAlias then T.setSize else 0) + 1 else 0))
  }

  lemma AddSetOk(s: State, t: Id, v: Value, size: nat, a: AliasLattice, newborn: Option<Id>, u: Id)
    requires Consistent(s, None, newborn) && t in s.sets && s.sets[t].forward.None? && v !in s.pm
    requires newborn.Some? ==> newborn == Some(t)
    requires u in s.sets
    ensures SetOk(Added(s, t, v, size, a), None, None, u)
  {
    var s' := Added(s, t, v, size, a);
    assert SetOk(s, None, newborn, t) && SetOk(s, None, newborn, u);
    forall w, u ensures ResolvesTo(s', w, u) <==> if w == v then u == t else ResolvesTo(s, w, u) {}
    RefsAfterSet(s.sets, s'.sets, s.pm, t, u);
    RefsAfterEntry(s'.sets, s.pm, s'.pm, v, u);
    if u == t {
      assert v !in s.sets[t].ptrs;
      NoDupConcat(s.sets[t].ptrs, [v]);
    }
  }

  lemma AddConsistent(s: State, t: Id, v: Value, size: nat, a: AliasLattice, newborn: Option<Id>)
    requires Consistent(s, None, newborn) && t in s.sets && s.sets[t].forward.None? && v !in s.pm
    requires s.sets[t].alias == SetMayAlias ==> a == SetMayAlias
    requires newborn.Some? ==> newborn == Some(t)
    ensures Consistent(Added(s, t, v, size, a), None, None)
  {
    var s' := Added(s, t, v, size, a);
    forall u | u in s'.sets ensures SetOk(s', None, None, u) {
      AddSetOk(s, t, v, size, a, newborn, u);
    }
    assert SetOk(s, None, newborn, t);
    SumMayUpdate(s.sets, s'.sets, t, s.nextId);
  }

  function Without(ps: seq<Value>, v: Value): seq<Value> {
    if ps == [] then [] else if ps[0] == v then Without(ps[1..], v) else [ps[0]] + Without(ps[1..], v)
  }

  lemma {:induction false} WithoutMembers(ps: seq<Value>, v: Value)
    requires NoDup(ps)
    ensures NoDup(Without(ps, v)) && forall w :: w in Without(ps, v) <==> w in ps && w != v
    ensures |Without(ps, v)| == |ps| - Unit(v in ps)
  {
    if ps != [] {
      WithoutMembers(ps[1..], v);
      assert forall w :: w in ps <==> w == ps[0] || w in ps[1..];
      var rest := Without(ps[1..], v);
      assert ps[0] !in rest;
      assert NoDup([ps[0]] + rest);
    }
  }

  /** What unlinking pointer v leaves: the reference its record held is owed. */
  function Deleted(s: State, v: Value): State
    requires v in s.pm && s.pm[v].set_ in s.sets
  {
    var t := s.pm[v].set_;
    var may := s.sets[t].alias == SetMayAlias && s.sets[t].setSize > 0;
    s.(sets := s.sets[t := s.sets[t].(ptrs := Without(s.sets[t].ptrs, v),
                                      setSize := s.sets[t].setSize - (if may then 1 else 0))],
       pm := s.pm - {v},
       total := s.total - (if may then 1 else 0))
  }

  lemma DeleteConsistent(s: State, v: Value)
    requires Consistent(s, None, None) && v in s.pm && s.sets[s.pm[v].set_].forward.None?
    ensures Consistent(Deleted(s, v), Some(s.pm[v].set_), None)
    ensures s.sets[s.pm[v].set_].setSize > 0
  {
    var t := s.pm[v].set_;
    var s' := Deleted(s, v);
    assert SetOk(s, None, None, t);
    WithoutMembers(s.sets[t].ptrs, v);
    assert ResolvesTo(s, v, t);
    assert v in s.sets[t].ptrs;
    forall w, u ensures ResolvesTo(s', w, u) <==> w != v && ResolvesTo(s, w, u) {}
    forall u | u in s'.sets ensures SetOk(s', Some(t), None, u) {
      assert SetOk(s, None, None, u);
      RefsAfterSet(s.sets, s'.sets, s.pm, t, u);
      RefsAfterEntry(s'.sets, s.pm, s'.pm, v, u);
    }
    SumMayUpdate(s.sets, s'.sets, t, s.nextId);
  }

  /** A new, empty set at the end of the list. */
  function Grown(s: State, ns: AliasSet): State {
    s.(sets := s.sets[s.nextId := ns], root := s.root[s.nextId := s.nextId], nextId := s.nextId + 1,
       any := if ns.aliasAny then Some(s.nextId) else s.any)
  }

  lemma NotRoot(s: State, n: Id)
    requires Consistent(s, None, None) && n !in s.sets
    ensures forall v :: !ResolvesTo(s, v, n)
  {
    forall v ensures !ResolvesTo(s, v, n) {
      if v in s.pm {
        RootIsTarget(s, None, None, s.pm[v].set_);
      }
    }
  }

  lemma NoForwardTo(s: State, n: Id)
    requires Consistent(s, None, None) && n !in s.sets
    ensures Refs(s.sets, s.pm, n) == 0
  {
    forall u | u in s.sets ensures s.sets[u].forward != Some(n) {
      assert SetOk(s, None, None, u);
    }
    RefsNamed(s.sets, s.pm, n);
  }

  lemma GrowSetOk(s: State, ns: AliasSet, t: Id)
    requires Consistent(s, None, None) && s.nextId !in s.sets && (ns.aliasAny ==> s.any.None?)
    requires s.any != Some(s.nextId)
    requires ns.ptrs == [] && ns.forward.None? && ns.refCount == 0 && ns.setSize == 0
    requires t in s.sets || t == s.nextId
    ensures SetOk(Grown(s, ns), None, Some(s.nextId), t)
  {
    var s', n := Grown(s, ns), s.nextId;
    forall v, t | t != n ensures ResolvesTo(s', v, t) <==> ResolvesTo(s, v, t) {}
    RefsAfterSet(s.sets, s'.sets, s.pm, n, t);
    if t == n {
      NoForwardTo(s, n);
      NotRoot(s, n);
      forall v ensures !ResolvesTo(s', v, n) {
        assert !ResolvesTo(s, v, n);
      }
    } else {
      assert SetOk(s, None, None, t);
    }
  }

  lemma GrowConsistent(s: State, ns: AliasSet)
    requires Consistent(s, None, None) && (ns.aliasAny ==> s.any.None?)
    requires s.any.Some? ==> s.any.value in s.sets
    requires ns.ptrs == [] && ns.forward.None? && ns.refCount == 0 && ns.setSize == 0
    ensures s.nextId !in s.sets && Consistent(Grown(s, ns), None, Some(s.nextId))
  {
    var s', n := Grown(s, ns), s.nextId;
    assert n in s.sets ==> SetOk(s, None, None, n);
    if s.any.Some? {
      assert SetOk(s, None, None, s.any.value);
    }
    forall t | t in s'.sets ensures SetOk(s', None, Some(n), t) {
      GrowSetOk(s, ns, t);
    }
    SumMayUpdate(s.sets, s'.sets, n, n + 1);
  }
}
