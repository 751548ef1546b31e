/** Overlapping pointers share an alias set: the geometric side of the tracker's invariant. */
module AliasSeparation {
  import opened Wrappers
  import opened AliasSets

  /** An alias analysis, asked about two pointers with their access sizes. */
  type Oracle = (Value, nat, Value, nat) -> AliasResult

  /** The byte ranges [a, a+n) and [b, b+m) have no byte in common. */
  predicate Apart(a: int, n: nat, b: int, m: nat) {
    n == 0 || m == 0 || a + n <= b || b + m <= a
  }

  /** NoAlias means no common byte; MustAlias means the same start address. */
  ghost predicate Sound(aa: Oracle, addr: Value -> int) {
    forall p, n, q, m ::
      && (aa(p, n, q, m) == NoAlias ==> Apart(addr(p), n, addr(q), m))
      && (aa(p, n, q, m) == MustAlias ==> addr(p) == addr(q))
  }

  lemma SoundAt(aa: Oracle, addr: Value -> int, p: Value, n: nat, q: Value, m: nat)
    requires Sound(aa, addr)
    ensures aa(p, n, q, m) == NoAlias ==> Apart(addr(p), n, addr(q), m)
    ensures aa(p, n, q, m) == MustAlias ==> addr(p) == addr(q)
  {
  }

  ghost predicate SameSet(s: State, v: Value, w: Value) {
    exists t :: ResolvesTo(s, v, t) && ResolvesTo(s, w, t)
  }

  ghost predicate Overlap(s: State, addr: Value -> int, v: Value, w: Value) {
    v in s.pm && w in s.pm && !Apart(addr(v), s.pm[v].size, addr(w), s.pm[w].size)
  }

  /** The bytes [a, a+n) are all in [b, b+m). */
  predicate Within(a: int, n: nat, b: int, m: nat) {
    n == 0 || (b <= a && a + n <= b + m)
  }

  /** The first pointer of a must-alias set covers every byte of the others. */
  ghost predicate HeadCovers(s: State, addr: Value -> int, t: Id) {
    t in s.sets && s.sets[t].alias == SetMustAlias ==>
      forall v | v in s.sets[t].ptrs ::
        && v in s.pm && s.sets[t].ptrs[0] in s.pm
        && Within(addr(v), s.pm[v].size, addr(s.sets[t].ptrs[0]), s.pm[s.sets[t].ptrs[0]].size)
  }

  ghost predicate HeadsCover(s: State, addr: Value -> int) {
    forall t {:trigger HeadCovers(s, addr, t)} :: HeadCovers(s, addr, t)
  }

  /** What the tracker is for: overlapping pointers share a set. */
  ghost predicate OverlapsShare(s: State, addr: Value -> int) {
    forall v, w | Overlap(s, addr, v, w) :: SameSet(s, v, w)
  }

  /** What its operations rely on besides: must-alias sets are only asked about through their
      first pointers. */
  ghost predicate Separated(s: State, addr: Value -> int) {
    HeadsCover(s, addr) && OverlapsShare(s, addr)
  }

  lemma EquivalentSeparated(s: State, s': State, addr: Value -> int)
    requires Equivalent(s, s') && Separated(s, addr)
    ensures Separated(s', addr)
  {
    forall t ensures HeadCovers(s', addr, t) {
      EquivalentAt(s, s', t);
      assert HeadCovers(s, addr, t);
      if t in s'.sets && s'.sets[t].alias == SetMustAlias {
        forall v | v in s'.sets[t].ptrs
          ensures v in s'.pm && s'.pm[v].size == s.pm[v].size && s'.sets[t].ptrs[0] in s'.pm
        {
          assert v in s.pm && s.sets[t].ptrs[0] in s.pm;
          assert v in s.pm.Keys && s.sets[t].ptrs[0] in s.pm.Keys;
        }
      }
    }
    forall v, w | Overlap(s', addr, v, w) ensures SameSet(s', v, w) {
      assert Overlap(s, addr, v, w);
    }
  }

  /** The test the tracker applies to a set: may-alias sets are asked about every pointer,
      must-alias sets only about their first one. */
  ghost predicate Touches(aa: Oracle, s: State, t: Id, v: Value, size: nat) {
    t in s.sets &&
    var S := s.sets[t];
    if S.aliasAny then true
    else if S.alias == SetMustAlias then
      S.ptrs != [] && S.ptrs[0] in s.pm && aa(S.ptrs[0], s.pm[S.ptrs[0]].size, v, size) != NoAlias
    else exists q :: q in S.ptrs && q in s.pm && aa(v, size, q, s.pm[q].size) != NoAlias
  }

  /** A set that is not touched holds no pointer that overlaps. */
  lemma UntouchedIsApart(aa: Oracle, s: State, addr: Value -> int, t: Id, v: Value, size: nat, w: Value)
    requires Sound(aa, addr) && Consistent(s, None, None) && HeadCovers(s, addr, t)
    requires !Touches(aa, s, t, v, size) && ResolvesTo(s, w, t) && t in s.sets
    ensures Apart(addr(v), size, addr(w), s.pm[w].size)
  {
    assert SetOk(s, None, None, t);
    assert w in s.sets[t].ptrs;
    var h := s.sets[t].ptrs[0];
    assert h in s.sets[t].ptrs;
    if s.sets[t].alias == SetMustAlias {
      assert Apart(addr(h), s.pm[h].size, addr(v), size);
    }
  }

  /** The first pointer of set d is smaller than that of set x. */
  ghost predicate SmallerHead(s: State, d: Id, x: Id) {
    && d in s.sets && x in s.sets && s.sets[d].ptrs != [] && s.sets[x].ptrs != []
    && s.sets[d].ptrs[0] in s.pm && s.sets[x].ptrs[0] in s.pm
    && s.pm[s.sets[d].ptrs[0]].size < s.pm[s.sets[x].ptrs[0]].size
  }

  ghost predicate HasEmpty(pm: Pointers) { exists v :: v in pm && pm[v].size == 0 }

  /** A merge keeps overlapping pointers together, and the first pointers cover their sets unless
      one that is kept is smaller than that of the set merged in, and then empty. */
  lemma MergeSeparated(s: State, addr: Value -> int, d: Id, x: Id, a: AliasLattice, newborn: Option<Id>)
    requires Consistent(s, None, newborn) && CanMerge(s, d, x, a) && Separated(s, addr)
    requires a == SetMustAlias ==>
      && s.sets[d].ptrs != [] && s.sets[x].ptrs != [] && addr(s.sets[d].ptrs[0]) == addr(s.sets[x].ptrs[0])
    ensures OverlapsShare(Merged(s, d, x, a), addr)
    ensures HeadsCover(Merged(s, d, x, a), addr) <==> a == SetMayAlias || !SmallerHead(s, d, x)
    ensures a == SetMustAlias && SmallerHead(s, d, x) ==> s.pm[s.sets[d].ptrs[0]].size == 0
  {
    var s' := Merged(s, d, x, a);
    MergeResolves(s, d, x, a, newborn);
    assert SetOk(s, None, newborn, d) && SetOk(s, None, newborn, x);
    assert HeadCovers(s, addr, d) && HeadCovers(s, addr, x);
    if a == SetMustAlias {
      var p, q := s.sets[d].ptrs[0], s.sets[x].ptrs[0];
      assert p in s.sets[d].ptrs && q in s.sets[x].ptrs;
      assert p == s'.sets[d].ptrs[0] && q in s'.sets[d].ptrs;
      assert !SameSet(s, p, q);
      assert !Overlap(s, addr, p, q);
      assert HeadCovers(s', addr, d) <==> !SmallerHead(s, d, x);
    }
    forall t | t != d ensures HeadCovers(s', addr, t) {
      assert HeadCovers(s, addr, t);
    }
    forall v, w | Overlap(s', addr, v, w) ensures SameSet(s', v, w) {
      assert Overlap(s, addr, v, w);
      var t :| ResolvesTo(s, v, t) && ResolvesTo(s, w, t);
      var t' := if t == x then d else t;
      assert ResolvesTo(s', v, t') && ResolvesTo(s', w, t');
    }
  }

  /** Recording a larger access size for a pointer. */
  function Resized(s: State, v: Value, size: nat): State
    requires v in s.pm
  {
    if size > s.pm[v].size then s.(pm := s.pm[v := s.pm[v].(size := size)]) else s
  }

  lemma ResizeConsistent(s: State, v: Value, size: nat, newborn: Option<Id>)
    requires Consistent(s, None, newborn) && v in s.pm
    ensures Consistent(Resized(s, v, size), None, newborn)
    ensures forall w, t :: ResolvesTo(Resized(s, v, size), w, t) <==> ResolvesTo(s, w, t)
  {
    var s' := Resized(s, v, size);
    forall w, t ensures ResolvesTo(s', w, t) <==> ResolvesTo(s, w, t) {}
    forall t | t in s'.sets ensures SetOk(s', None, newborn, t) {
      assert SetOk(s, None, newborn, t);
      RefsAfterEntry(s.sets, s.pm, s'.pm, v, t);
    }
  }

  /** A state with other access sizes for the same pointers. */
  function WithSizes(s: State, was: Pointers): State { s.(pm := was) }

  ghost predicate SameNames(pm: Pointers, was: Pointers) {
    was.Keys == pm.Keys && forall v | v in pm :: v in was && was[v].set_ == pm[v].set_
  }

  /** Sizes do not matter to lists, forwarding and reference counts. */
  lemma WithSizesConsistent(s: State, was: Pointers, newborn: Option<Id>)
    requires Consistent(s, None, newborn) && SameNames(s.pm, was)
    ensures Consistent(WithSizes(s, was), None, newborn)
    ensures forall w, t :: ResolvesTo(WithSizes(s, was), w, t) <==> ResolvesTo(s, w, t)
  {
    var s' := WithSizes(s, was);
    forall w, t ensures ResolvesTo(s', w, t) <==> ResolvesTo(s, w, t) {
      assert w in s.pm <==> w in s.pm.Keys;
      assert w in was <==> w in was.Keys;
    }
    forall v | v in s'.pm ensures s'.pm[v].set_ in s'.sets {
      assert v in s.pm.Keys;
    }
    forall t | t in s'.sets ensures SetOk(s', None, newborn, t) {
      assert SetOk(s, None, newborn, t);
      forall v ensures v in EntriesOf(was, t) <==> v in EntriesOf(s.pm, t) {
        assert v in s.pm <==> v in s.pm.Keys;
        assert v in was <==> v in was.Keys;
      }
      assert EntriesOf(was, t) == EntriesOf(s.pm, t);
    }
  }

  /** The first pointer of must-alias set t does not cover pointer v. */
  ghost predicate Outgrows(s: State, addr: Value -> int, v: Value, t: Id) {
    && t in s.sets && s.sets[t].alias == SetMustAlias && s.sets[t].ptrs != []
    && v in s.pm && s.sets[t].ptrs[0] in s.pm
    && !Within(addr(v), s.pm[v].size, addr(s.sets[t].ptrs[0]), s.pm[s.sets[t].ptrs[0]].size)
  }

  lemma NotOutgrown(s: State, addr: Value -> int, v: Value, t: Id)
    requires Consistent(s, None, None) && Separated(s, addr) && ResolvesTo(s, v, t)
    ensures !Outgrows(s, addr, v, t)
  {
    RootIsTarget(s, None, None, s.pm[v].set_);
    assert SetOk(s, None, None, t) && HeadCovers(s, addr, t);
    assert v in s.sets[t].ptrs;
  }

  lemma OutgrowsStays(s: State, s': State, addr: Value -> int, v: Value, t: Id)
    requires Equivalent(s, s') && v in s.pm && v in s'.pm && t in s'.sets
    requires t in s.sets && s.sets[t].ptrs != [] ==> s.sets[t].ptrs[0] in s.pm
    ensures Outgrows(s', addr, v, t) <==> Outgrows(s, addr, v, t)
  {
    EquivalentAt(s, s', t);
    SizesStay(s, s');
    assert s'.sets[t].alias == s.sets[t].alias && s'.sets[t].ptrs == s.sets[t].ptrs;
    if s.sets[t].ptrs != [] {
      var h := s.sets[t].ptrs[0];
      assert h in s.pm && h in s'.pm && s'.pm[h].size == s.pm[h].size;
    }
  }

  /** After a larger size is recorded first pointers cover their sets exactly if the pointer is in
      a may-alias set, the first one itself, or still covered by it. */
  lemma GrowthCovers(s: State, addr: Value -> int, v: Value, size: nat, t: Id)
    requires Consistent(s, None, None) && HeadsCover(s, addr) && ResolvesTo(s, v, t) && t in s.sets && size > s.pm[v].size
    ensures s.sets[t].ptrs != [] && s.sets[t].ptrs[0] in s.pm
    ensures var h := s.sets[t].ptrs[0];
      HeadsCover(Resized(s, v, size), addr) <==>
        s.sets[t].alias == SetMayAlias || v == h || Within(addr(v), size, addr(h), s.pm[h].size)
    ensures HeadsCover(Resized(s, v, size), addr) <==> !Outgrows(Resized(s, v, size), addr, v, t)
  {
    var s' := Resized(s, v, size);
    assert SetOk(s, None, None, t) && HeadCovers(s, addr, t);
    assert v in s.sets[t].ptrs && s.sets[t].ptrs[0] in s.sets[t].ptrs;
    assert ResolvesTo(s, s.sets[t].ptrs[0], t);
    assert HeadCovers(s', addr, t) <==> !Outgrows(s', addr, v, t);
    forall u | u != t ensures HeadCovers(s', addr, u) {
      assert HeadCovers(s, addr, u);
      if u in s.sets {
        assert SetOk(s, None, None, u);
        assert forall w | w in s.sets[u].ptrs :: ResolvesTo(s, w, u) && w != v;
        assert s.sets[u].ptrs != [] ==> s.sets[u].ptrs[0] in s.sets[u].ptrs;
      }
    }
  }

  /** The recorded size of the first pointer may have been raised to that of a pointer to be
      added at the same address. */
  ghost predicate Recorded(s: State, s1: State, addr: Value -> int, t: Id, v: Value, size: nat) {
    && t in s.sets && v !in s.pm
    && (s1 == s || (s.sets[t].ptrs != [] && s.sets[t].ptrs[0] in s.pm
                    && addr(s.sets[t].ptrs[0]) == addr(v) && s1 == Resized(s, s.sets[t].ptrs[0], size)))
  }

  /** The state in which a pointer is added to set t: if t stays a must-alias set, its first
      pointer covers what is added. */
  ghost predicate ReadyToAdd(s: State, s1: State, addr: Value -> int, t: Id, v: Value, size: nat, a: AliasLattice) {
    && Recorded(s, s1, addr, t, v, size)
    && (a == SetMustAlias && s.sets[t].ptrs != [] ==>
          && s.sets[t].alias == SetMustAlias && s.sets[t].ptrs[0] in s1.pm
          && Within(addr(v), size, addr(s.sets[t].ptrs[0]), s1.pm[s.sets[t].ptrs[0]].size))
  }

  /** Every pointer outside set t is apart from the one to be added. */
  ghost predicate OthersApart(s: State, addr: Value -> int, t: Id, v: Value, size: nat) {
    forall w, u | ResolvesTo(s, w, u) && u != t :: Apart(addr(v), size, addr(w), s.pm[w].size)
  }

  lemma AddCovers(s: State, s1: State, addr: Value -> int, t: Id, v: Value, size: nat, a: AliasLattice, newborn: Option<Id>, u: Id)
    requires Consistent(s, None, newborn) && HeadCovers(s, addr, u) && ReadyToAdd(s, s1, addr, t, v, size, a)
    ensures HeadCovers(Added(s1, t, v, size, a), addr, u)
  {
    if u == t {
      AddCoversHere(s, s1, addr, t, v, size, a, newborn);
    } else if u in s.sets {
      assert SetOk(s, None, newborn, u) && SetOk(s, None, newborn, t);
      assert s.sets[t].ptrs != [] ==> s.sets[t].ptrs[0] in s.sets[t].ptrs;
      assert forall w | w in s.sets[u].ptrs :: ResolvesTo(s, w, u);
    }
  }

  lemma AddCoversHere(s: State, s1: State, addr: Value -> int, t: Id, v: Value, size: nat, a: AliasLattice, newborn: Option<Id>)
    requires Consistent(s, None, newborn) && HeadCovers(s, addr, t) && ReadyToAdd(s, s1, addr, t, v, size, a)
    ensures HeadCovers(Added(s1, t, v, size, a), addr, t)
  {
    assert ListOk(s, t) by {
      assert SetOk(s, None, newborn, t);
    }
    hide Consistent, Within;
    var T := s.sets[t].ptrs;
    if T != [] {
      assert T[0] in T && (T + [v])[0] == T[0];
      assert forall w | w in T :: ResolvesTo(s, w, t);
      forall w | w in T && a == SetMustAlias
        ensures w in s1.pm && Within(addr(w), s1.pm[w].size, addr(T[0]), s1.pm[T[0]].size)
      {
        LargerCovers(addr(w), s.pm[w].size, addr(T[0]), s.pm[T[0]].size, s1.pm[T[0]].size);
      }
    } else {
      SelfCovers(addr(v), size);
    }
  }

  /** A larger range covers as much, and a range covers itself. */
  lemma LargerCovers(a: int, n: nat, b: int, m: nat, m': nat)
    requires m <= m'
    ensures Within(a, n, b, m) ==> Within(a, n, b, m')
    ensures Within(b, m', b, m')
  {
  }

  lemma SelfCovers(a: int, n: nat)
    ensures Within(a, n, a, n)
  {
  }

  lemma AddOverlapOk(s: State, s1: State, addr: Value -> int, t: Id, v: Value, size: nat, a: AliasLattice, newborn: Option<Id>,
                     p: Value, q: Value)
    requires Consistent(s, None, newborn) && OverlapsShare(s, addr)
    requires Recorded(s, s1, addr, t, v, size) && s.sets[t].forward.None? && OthersApart(s, addr, t, v, size)
    requires Overlap(Added(s1, t, v, size, a), addr, p, q)
    ensures SameSet(Added(s1, t, v, size, a), p, q)
  {
    assert SetOk(s, None, newborn, t);
    var s' := Added(s1, t, v, size, a);
    forall w, u ensures ResolvesTo(s', w, u) <==> if w == v then u == t else ResolvesTo(s, w, u) {}
    var h := s'.sets[t].ptrs[0];
    assert h == v || h in s.sets[t].ptrs;
    assert ResolvesTo(s', h, t);
    AddedOverlap(s, s', addr, t, v, size, h, p, q, newborn);
  }

  /** Adding a pointer to the one set that may hold something it overlaps keeps the tracker
      separated. */
  lemma AddSeparated(s: State, s1: State, addr: Value -> int, t: Id, v: Value, size: nat, a: AliasLattice, newborn: Option<Id>)
    requires Consistent(s, None, newborn) && Separated(s, addr)
    requires ReadyToAdd(s, s1, addr, t, v, size, a) && s.sets[t].forward.None? && OthersApart(s, addr, t, v, size)
    ensures Separated(Added(s1, t, v, size, a), addr)
  {
    var s' := Added(s1, t, v, size, a);
    forall u ensures HeadCovers(s', addr, u) {
      assert HeadCovers(s, addr, u);
      AddCovers(s, s1, addr, t, v, size, a, newborn, u);
    }
    forall p, q | Overlap(s', addr, p, q) ensures SameSet(s', p, q) {
      AddOverlapOk(s, s1, addr, t, v, size, a, newborn, p, q);
    }
  }

  lemma AddedOverlap(s: State, s': State, addr: Value -> int, t: Id, v: Value, size: nat, h: Value, p: Value, q: Value,
                     newborn: Option<Id>)
    requires Consistent(s, None, newborn) && OverlapsShare(s, addr) && v !in s.pm && t in s.sets
    requires OthersApart(s, addr, t, v, size)
    requires forall w, u :: ResolvesTo(s', w, u) <==> if w == v then u == t else ResolvesTo(s, w, u)
    requires s'.pm.Keys == s.pm.Keys + {v} && s'.pm[v].size == size
    requires forall w | w in s.pm :: s'.pm[w].size == s.pm[w].size || (w == h && s'.pm[w].size == size && addr(h) == addr(v))
    requires ResolvesTo(s', h, t)
    requires Overlap(s', addr, p, q)
    ensures SameSet(s', p, q)
  {
    // Anything in another set is apart from v, and so from h, which covers no more than
    // what it covered before or what v covers.
    if p in s.pm && q in s.pm && Overlap(s, addr, p, q) {
      var u :| ResolvesTo(s, p, u) && ResolvesTo(s, q, u);
      assert ResolvesTo(s', p, u) && ResolvesTo(s', q, u);
    } else {
      forall w | w == p || w == q ensures w in s.pm ==> ResolvesTo(s, w, s.root[s.pm[w].set_]) {}
      assert ResolvesTo(s', v, t);
      assert ResolvesTo(s', p, t) && ResolvesTo(s', q, t);
    }
  }

  /** A pointer to be added to set t without asking the analysis is apart from all other sets and,
      if t is a must-alias set, covered by its first pointer. */
  ghost predicate FitsSet(s: State, addr: Value -> int, t: Id, v: Value, size: nat) {
    t in s.sets && OthersApart(s, addr, t, v, size) && CoveredBySet(s, addr, t, v, size)
  }

  ghost predicate CoveredBySet(s: State, addr: Value -> int, t: Id, v: Value, size: nat) {
    t in s.sets && s.sets[t].alias == SetMustAlias && s.sets[t].ptrs != [] && s.sets[t].ptrs[0] in s.pm ==>
      Within(addr(v), size, addr(s.sets[t].ptrs[0]), s.pm[s.sets[t].ptrs[0]].size)
  }

  /** Adding a pointer to a set without asking the analysis keeps overlapping pointers together
      exactly if it is apart from all other sets, and first pointers cover their sets exactly if
      the one of this set covers it. */
  lemma AddKnownSeparated(s: State, addr: Value -> int, t: Id, v: Value, size: nat)
    requires Consistent(s, None, None) && Separated(s, addr)
    requires t in s.sets && s.sets[t].forward.None? && v !in s.pm
    requires s.sets[t].ptrs != [] && s.sets[t].ptrs[0] in s.pm
    ensures OverlapsShare(Added(s, t, v, size, s.sets[t].alias), addr) <==> OthersApart(s, addr, t, v, size)
    ensures HeadsCover(Added(s, t, v, size, s.sets[t].alias), addr) <==> CoveredBySet(s, addr, t, v, size)
    ensures Separated(Added(s, t, v, size, s.sets[t].alias), addr) <==> FitsSet(s, addr, t, v, size)
  {
    AddKnownShares(s, addr, t, v, size);
    AddKnownCovers(s, addr, t, v, size);
  }

  lemma AddKnownCovers(s: State, addr: Value -> int, t: Id, v: Value, size: nat)
    requires Consistent(s, None, None) && HeadsCover(s, addr)
    requires t in s.sets && s.sets[t].forward.None? && v !in s.pm
    requires s.sets[t].ptrs != [] && s.sets[t].ptrs[0] in s.pm
    ensures HeadsCover(Added(s, t, v, size, s.sets[t].alias), addr) <==> CoveredBySet(s, addr, t, v, size)
  {
    var s' := Added(s, t, v, size, s.sets[t].alias);
    assert SetOk(s, None, None, t) && HeadCovers(s, addr, t);
    assert v in s'.sets[t].ptrs && s'.sets[t].ptrs[0] == s.sets[t].ptrs[0];
    assert HeadCovers(s', addr, t) ==> CoveredBySet(s, addr, t, v, size);
    if CoveredBySet(s, addr, t, v, size) {
      forall u ensures HeadCovers(s', addr, u) {
        assert HeadCovers(s, addr, u);
        AddCovers(s, s, addr, t, v, size, s.sets[t].alias, None, u);
      }
    }
  }

  lemma AddKnownShares(s: State, addr: Value -> int, t: Id, v: Value, size: nat)
    requires Consistent(s, None, None) && Separated(s, addr)
    requires t in s.sets && s.sets[t].forward.None? && v !in s.pm && s.sets[t].ptrs != []
    ensures OverlapsShare(Added(s, t, v, size, s.sets[t].alias), addr) <==> OthersApart(s, addr, t, v, size)
  {
    var s' := Added(s, t, v, size, s.sets[t].alias);
    assert SetOk(s, None, None, t);
    if OthersApart(s, addr, t, v, size) {
      forall p, q | Overlap(s', addr, p, q) ensures SameSet(s', p, q) {
        AddOverlapOk(s, s, addr, t, v, size, s.sets[t].alias, None, p, q);
      }
    }
    if OverlapsShare(s', addr) {
      forall w, u | ResolvesTo(s, w, u) && u != t ensures Apart(addr(v), size, addr(w), s.pm[w].size) {
        assert ResolvesTo(s', v, t) && ResolvesTo(s', w, u);
        assert !SameSet(s', v, w);
        assert !Overlap(s', addr, v, w);
      }
    }
  }

  /** The first pointer of the list does not cover some other one. */
  ghost predicate Outgrown(pm: Pointers, addr: Value -> int, ps: seq<Value>) {
    && ps != [] && ps[0] in pm
    && exists w :: w in ps && w in pm && !Within(addr(w), pm[w].size, addr(ps[0]), pm[ps[0]].size)
  }

  lemma OutgrownSame(pm: Pointers, pm': Pointers, addr: Value -> int, ps: seq<Value>)
    requires pm'.Keys == pm.Keys && forall w | w in pm :: w in pm' && pm'[w].size == pm[w].size
    ensures Outgrown(pm', addr, ps) <==> Outgrown(pm, addr, ps)
  {
    forall w ensures w in pm' <==> w in pm {
      assert w in pm'.Keys <==> w in pm.Keys;
    }
    forall w | w in pm' ensures pm[w].size == pm'[w].size {}
  }

  /** A copy of `from` fits the set of the original. */
  ghost predicate CopyFits(s: State, addr: Value -> int, from: Value, to: Value) {
    from in s.pm && exists t :: ResolvesTo(s, from, t) && FitsSet(s, addr, t, to, s.pm[from].size)
  }

  lemma EqualCopyFits(s: State, addr: Value -> int, from: Value, to: Value, t: Id)
    requires Consistent(s, None, None) && Separated(s, addr) && ResolvesTo(s, from, t) && t in s.sets
    requires addr(to) == addr(from)
    ensures CopyFits(s, addr, from, to)
  {
    assert SetOk(s, None, None, t) && HeadCovers(s, addr, t);
    assert from in s.sets[t].ptrs;
    forall w, u | ResolvesTo(s, w, u) && u != t ensures Apart(addr(to), s.pm[from].size, addr(w), s.pm[w].size) {
      assert !SameSet(s, from, w);
      assert !Overlap(s, addr, from, w);
    }
    assert FitsSet(s, addr, t, to, s.pm[from].size);
  }

  lemma CopyFitsStays(s: State, s': State, addr: Value -> int, from: Value, to: Value, t: Id)
    requires Equivalent(s, s') && ResolvesTo(s', from, t) && t in s'.sets && t in s.sets
    ensures CopyFits(s', addr, from, to) <==> CopyFits(s, addr, from, to)
    ensures CopyFits(s', addr, from, to) <==> FitsSet(s', addr, t, to, s'.pm[from].size)
  {
    SizesStay(s, s');
    EquivalentAt(s, s', t);
    assert s'.sets[t].alias == s.sets[t].alias && s'.sets[t].ptrs == s.sets[t].ptrs;
    assert OthersApart(s', addr, t, to, s'.pm[from].size) <==> OthersApart(s, addr, t, to, s.pm[from].size);
    if s.sets[t].ptrs != [] {
      var h := s.sets[t].ptrs[0];
      assert h in s.pm <==> h in s'.pm;
    }
    assert CoveredBySet(s', addr, t, to, s'.pm[from].size) <==> CoveredBySet(s, addr, t, to, s.pm[from].size);
  }

  /** Without v, the first pointer of its must-alias set does not cover some other one. */
  ghost predicate NextOutgrown(s: State, addr: Value -> int, v: Value) {
    exists t :: ResolvesTo(s, v, t) && NextUncovers(s, addr, v, t)
  }

  ghost predicate NextUncovers(s: State, addr: Value -> int, v: Value, t: Id) {
    t in s.sets && s.sets[t].alias == SetMustAlias && Outgrown(s.pm, addr, Without(s.sets[t].ptrs, v))
  }

  lemma DeleteCovers(s: State, addr: Value -> int, v: Value)
    requires Consistent(s, None, None) && v in s.pm && s.sets[s.pm[v].set_].forward.None? && HeadCovers(s, addr, s.pm[v].set_)
    ensures HeadCovers(Deleted(s, v), addr, s.pm[v].set_) <==> !NextOutgrown(s, addr, v)
  {
    var t := s.pm[v].set_;
    assert SetOk(s, None, None, t);
    assert ResolvesTo(s, v, t);
    var rest := Without(s.sets[t].ptrs, v);
    WithoutMembers(s.sets[t].ptrs, v);
    assert NextOutgrown(s, addr, v) <==> s.sets[t].alias == SetMustAlias && Outgrown(s.pm, addr, rest);
    if rest != [] {
      assert rest[0] in s.sets[t].ptrs;
      assert forall w | w in rest :: ResolvesTo(s, w, t);
    }
  }

  lemma DeleteCoversElsewhere(s: State, addr: Value -> int, v: Value, u: Id)
    requires Consistent(s, None, None) && v in s.pm && s.sets[s.pm[v].set_].forward.None?
    requires HeadCovers(s, addr, u) && u != s.pm[v].set_
    ensures HeadCovers(Deleted(s, v), addr, u)
  {
    if u in s.sets {
      assert SetOk(s, None, None, s.pm[v].set_) && SetOk(s, None, None, u);
      assert forall w | w in s.sets[u].ptrs :: ResolvesTo(s, w, u) && w != v;
      assert s.sets[u].ptrs != [] ==> s.sets[u].ptrs[0] in s.sets[u].ptrs;
    }
  }

  /** Deleting a pointer keeps overlapping pointers together, and first pointers cover their sets
      exactly if the next one of its must-alias set covers every other. */
  lemma DeleteSeparated(s: State, addr: Value -> int, v: Value)
    requires Consistent(s, None, None) && Separated(s, addr)
    requires v in s.pm && s.sets[s.pm[v].set_].forward.None?
    ensures OverlapsShare(Deleted(s, v), addr)
    ensures HeadsCover(Deleted(s, v), addr) <==> !NextOutgrown(s, addr, v)
  {
    var s' := Deleted(s, v);
    forall w, u ensures ResolvesTo(s', w, u) <==> w != v && ResolvesTo(s, w, u) {}
    assert HeadCovers(s, addr, s.pm[v].set_);
    DeleteCovers(s, addr, v);
    forall u | u != s.pm[v].set_ ensures HeadCovers(s', addr, u) {
      assert HeadCovers(s, addr, u);
      DeleteCoversElsewhere(s, addr, v, u);
    }
    forall p, q | Overlap(s', addr, p, q) ensures SameSet(s', p, q) {
      assert Overlap(s, addr, p, q);
      var u :| ResolvesTo(s, p, u) && ResolvesTo(s, q, u);
      assert ResolvesTo(s', p, u) && ResolvesTo(s', q, u);
    }
  }

  lemma GrowSeparated(s: State, ns: AliasSet, addr: Value -> int)
    requires Consistent(s, None, None) && Separated(s, addr) && s.nextId !in s.sets && ns.ptrs == []
    ensures Separated(Grown(s, ns), addr)
  {
    var s' := Grown(s, ns);
    forall t ensures HeadCovers(s', addr, t) {
      assert HeadCovers(s, addr, t);
    }
    forall v, w | Overlap(s', addr, v, w) ensures SameSet(s', v, w) {
      assert Overlap(s, addr, v, w);
      var t :| ResolvesTo(s, v, t) && ResolvesTo(s, w, t);
      RootIsTarget(s, None, None, s.pm[v].set_);
      assert ResolvesTo(s', v, t) && ResolvesTo(s', w, t);
    }
  }

  // ----- Gathering the sets a pointer touches -----

  /** Set t and every older set, resolved through f, after the touched live sets older than n
      have been merged into f. */
  ghost function GatheredRoot(aa: Oracle, s: State, v: Value, size: nat, n: Id, f: Id, t: Id): Id
    requires t in s.root
  {
    if s.root[t] < n && Touches(aa, s, s.root[t], v, size) then f else s.root[t]
  }

  /** s' is s with the touched live sets older than n merged into one, which is `found`. */
  ghost predicate Gathered(aa: Oracle, s: State, s': State, v: Value, size: nat, n: Id, found: Option<Id>) {
    && s'.pm == s.pm && s'.nextId == s.nextId && s'.any == s.any && s'.sets.Keys == s.sets.Keys && s'.root.Keys == s.root.Keys
    && (forall t | t in s.sets && t >= n :: s'.sets[t] == s.sets[t])
    && (found.None? ==> s' == s && forall t | t in s.sets && t < n && s.sets[t].forward.None? :: !Touches(aa, s, t, v, size))
    && (found.Some? ==>
          && 0 <= found.value < n && found.value in s'.sets && s'.sets[found.value].forward.None?
          && s'.sets[found.value].refCount > 0 && Touches(aa, s, found.value, v, size)
          && (s'.sets[found.value].alias == SetMustAlias ==> Touches(aa, s', found.value, v, size))
          && (forall t | t in s.root :: s'.root[t] == GatheredRoot(aa, s, v, size, n, found.value, t))
          && (forall t | t in s'.sets && t < n && t != found.value && s'.sets[t].forward.None? ::
                !Touches(aa, s', t, v, size) && s'.sets[t] == s.sets[t]))
  }

  /** The test depends on the set and on the pointer records only. */
  lemma TouchesSame(aa: Oracle, s: State, s': State, t: Id, v: Value, size: nat)
    requires s'.pm == s.pm && (t in s'.sets <==> t in s.sets)
    requires t in s.sets ==> s'.sets[t].(refCount := 0) == s.sets[t].(refCount := 0)
    ensures Touches(aa, s', t, v, size) == Touches(aa, s, t, v, size)
  {
  }

  lemma GatherSkip(aa: Oracle, s: State, s': State, v: Value, size: nat, n: Id, found: Option<Id>)
    requires Consistent(s, None, None) && Gathered(aa, s, s', v, size, n, found)
    requires n !in s'.sets || s'.sets[n].forward.Some? || !Touches(aa, s', n, v, size)
    ensures Gathered(aa, s, s', v, size, n + 1, found)
  {
    hide Consistent, Touches;
    if found.Some? {
      forall t | t in s.root ensures s'.root[t] == GatheredRoot(aa, s, v, size, n + 1, found.value, t) {
        GatherSkipAt(aa, s, s', v, size, n, t);
        assert s'.root[t] == GatheredRoot(aa, s, v, size, n, found.value, t);
      }
    }
  }

  lemma GatherSkipAt(aa: Oracle, s: State, s': State, v: Value, size: nat, n: Id, t: Id)
    requires Consistent(s, None, None) && t in s.root && s'.pm == s.pm
    requires n in s.sets ==> n in s'.sets && s'.sets[n] == s.sets[n]
    requires n !in s'.sets || s'.sets[n].forward.Some? || !Touches(aa, s', n, v, size)
    ensures s.root[t] == n ==> !Touches(aa, s, n, v, size)
  {
    RootIsTarget(s, None, None, t);
    if s.root[t] == n {
      TouchesSame(aa, s, s', n, v, size);
    }
  }

  lemma GatherFirst(aa: Oracle, s: State, v: Value, size: nat, n: Id)
    requires Consistent(s, None, None) && Gathered(aa, s, s, v, size, n, None)
    requires n in s.sets && s.sets[n].forward.None? && Touches(aa, s, n, v, size)
    ensures Gathered(aa, s, s, v, size, n + 1, Some(n))
  {
    assert SetOk(s, None, None, n);
    forall t | t in s.root ensures s.root[t] == GatheredRoot(aa, s, v, size, n + 1, n, t) {
      RootIsTarget(s, None, None, t);
    }
  }

  lemma GatherMerge(aa: Oracle, s: State, s': State, v: Value, size: nat, n: Id, f: Id, a: AliasLattice)
    requires Consistent(s, None, None) && Consistent(s', None, None) && Gathered(aa, s, s', v, size, n, Some(f))
    requires n in s'.sets && s'.sets[n].forward.None? && Touches(aa, s', n, v, size)
    requires CanMerge(s', f, n, a) && s'.sets[f].ptrs != []
    ensures Gathered(aa, s, Merged(s', f, n, a), v, size, n + 1, Some(f))
  {
    hide Consistent, Touches;
    var s'' := Merged(s', f, n, a);
    TouchesSame(aa, s, s', n, v, size);
    forall t | t in s.root ensures s''.root[t] == GatheredRoot(aa, s, v, size, n + 1, f, t) {
      assert s'.root[t] == GatheredRoot(aa, s, v, size, n, f, t);
    }
    forall t | t in s''.sets && t < n + 1 && t != f && s''.sets[t].forward.None?
      ensures !Touches(aa, s'', t, v, size) && s''.sets[t] == s.sets[t]
    {
      assert !Touches(aa, s', t, v, size);
      TouchesSame(aa, s', s'', t, v, size);
    }
    MergeTouches(aa, s', v, size, n, f, a);
  }

  /** A merge that leaves a must-alias set leaves its first pointer, and so the test, alone. */
  lemma MergeTouches(aa: Oracle, s: State, v: Value, size: nat, n: Id, f: Id, a: AliasLattice)
    requires CanMerge(s, f, n, a) && s.sets[f].ptrs != []
    requires s.sets[f].alias == SetMustAlias ==> Touches(aa, s, f, v, size)
    ensures a == SetMustAlias ==> Touches(aa, Merged(s, f, n, a), f, v, size)
  {
  }

  /** Pointer p is in a set that v touches. */
  ghost predicate TouchedBy(aa: Oracle, s: State, v: Value, size: nat, p: Value) {
    p in s.pm && s.pm[p].set_ in s.root && Touches(aa, s, s.root[s.pm[p].set_], v, size)
  }

  /** The known pointers are regrouped exactly by joining the groups that v touches. */
  ghost predicate Joins(aa: Oracle, s: State, s': State, v: Value, size: nat) {
    forall p, q | p in s.pm && q in s.pm ::
      SameSet(s', p, q) <==> SameSet(s, p, q) || (TouchedBy(aa, s, v, size, p) && TouchedBy(aa, s, v, size, q))
  }

  lemma GatheredJoins(aa: Oracle, s: State, s': State, v: Value, size: nat, found: Option<Id>)
    requires Consistent(s, None, None) && Consistent(s', None, None) && Gathered(aa, s, s', v, size, s.nextId, found)
    ensures Joins(aa, s, s', v, size)
    ensures forall p | p in s.pm :: TouchedBy(aa, s, v, size, p) <==> found.Some? && ResolvesTo(s', p, found.value)
  {
    hide Touches, Consistent, Gathered;
    forall p | p in s.pm
      ensures s.pm[p].set_ in s.root && s'.pm.Keys == s.pm.Keys
      ensures ResolvesTo(s, p, s.root[s.pm[p].set_])
      ensures p in s'.pm && s'.pm[p].set_ in s'.root && ResolvesTo(s', p, s'.root[s'.pm[p].set_])
      ensures TouchedBy(aa, s, v, size, p) ==> found.Some?
      ensures s'.root[s'.pm[p].set_] == if TouchedBy(aa, s, v, size, p) then found.value else s.root[s.pm[p].set_]
      ensures found.Some? && s.root[s.pm[p].set_] == found.value ==> TouchedBy(aa, s, v, size, p)
    {
      GatheredAt(aa, s, s', v, size, found, p);
    }
    forall p, q | p in s.pm && q in s.pm
      ensures SameSet(s', p, q) <==> SameSet(s, p, q) || (TouchedBy(aa, s, v, size, p) && TouchedBy(aa, s, v, size, q))
    {
      assert SameSet(s, p, q) <==> s.root[s.pm[p].set_] == s.root[s.pm[q].set_];
      assert SameSet(s', p, q) <==> s'.root[s'.pm[p].set_] == s'.root[s'.pm[q].set_];
    }
  }

  lemma GatheredAt(aa: Oracle, s: State, s': State, v: Value, size: nat, found: Option<Id>, p: Value)
    requires Consistent(s, None, None) && Consistent(s', None, None) && Gathered(aa, s, s', v, size, s.nextId, found)
    requires p in s.pm
    ensures s.pm[p].set_ in s.root && s'.pm.Keys == s.pm.Keys
    ensures ResolvesTo(s, p, s.root[s.pm[p].set_])
    ensures p in s'.pm && s'.pm[p].set_ in s'.root && ResolvesTo(s', p, s'.root[s'.pm[p].set_])
    ensures TouchedBy(aa, s, v, size, p) ==> found.Some?
    ensures s'.root[s'.pm[p].set_] == if TouchedBy(aa, s, v, size, p) then found.value else s.root[s.pm[p].set_]
    ensures found.Some? && s.root[s.pm[p].set_] == found.value ==> TouchedBy(aa, s, v, size, p)
  {
    hide Touches;
    var t := s.pm[p].set_;
    RootIsTarget(s, None, None, t);
    assert SetOk(s, None, None, s.root[t]);
    if found.Some? {
      assert s'.root[t] == GatheredRoot(aa, s, v, size, s.nextId, found.value, t);
    }
  }

  /** A pointer that has grown touches its own set, unless it is not covered any more and had no
      bytes before. */
  lemma GrownTouchesOwn(aa: Oracle, s: State, addr: Value -> int, v: Value, size: nat, t: Id)
    requires Sound(aa, addr) && Consistent(s, None, None) && Separated(s, addr) && ResolvesTo(s, v, t) && t in s.sets
    requires size > s.pm[v].size
    ensures Touches(aa, Resized(s, v, size), t, v, size) ||
      (Outgrows(Resized(s, v, size), addr, v, t) && s.pm[v].size == 0)
  {
    var s1 := Resized(s, v, size);
    assert SetOk(s, None, None, t) && HeadCovers(s, addr, t);
    var h := s.sets[t].ptrs[0];
    assert v in s.sets[t].ptrs && h in s.sets[t].ptrs;
    SoundAt(aa, addr, v, size, v, size);
    SoundAt(aa, addr, h, s1.pm[h].size, v, size);
    assert s1.pm[v].size == size;
  }

  /** A set with a pointer that a grown pointer of another set overlaps is touched. */
  lemma GrownTouchesOverlap(aa: Oracle, s: State, addr: Value -> int, v: Value, size: nat, q: Value, u: Id)
    requires Sound(aa, addr) && Consistent(s, None, None) && Separated(s, addr) && v in s.pm && size > s.pm[v].size
    requires ResolvesTo(s, q, u) && u in s.sets && !ResolvesTo(s, v, u)
    requires !Apart(addr(v), size, addr(q), s.pm[q].size)
    ensures Touches(aa, Resized(s, v, size), u, v, size)
  {
    var s1 := Resized(s, v, size);
    ResizeConsistent(s, v, size, None);
    assert SetOk(s, None, None, u) && HeadCovers(s, addr, u);
    assert forall w | w in s.sets[u].ptrs :: ResolvesTo(s, w, u) && w != v;
    assert s.sets[u].ptrs != [] ==> s.sets[u].ptrs[0] in s.sets[u].ptrs;
    assert HeadCovers(s1, addr, u);
    if !Touches(aa, s1, u, v, size) {
      UntouchedIsApart(aa, s1, addr, u, v, size, q);
    }
  }

  /** Growing a pointer that had bytes and joining the sets it now touches keeps overlapping
      pointers together, and first pointers cover their sets exactly if that of the set it ends up
      in covers it; in this case overlapping pointers are together in any case. */
  lemma GrowthSeparated(aa: Oracle, s: State, addr: Value -> int, v: Value, size: nat, s': State, found: Option<Id>, t: Id)
    requires Sound(aa, addr) && Consistent(s, None, None) && Separated(s, addr) && v in s.pm && size > s.pm[v].size
    requires Consistent(s', None, None) && Gathered(aa, Resized(s, v, size), s', v, size, s.nextId, found)
    requires Separated(WithSizes(s', s.pm), addr) && ResolvesTo(s', v, t)
    ensures s.pm[v].size > 0 || !Outgrows(s', addr, v, t) ==> OverlapsShare(s', addr)
    ensures HeadsCover(s', addr) <==> !Outgrows(s', addr, v, t)
  {
    hide HeadsCover, Sound, Touches;
    var s0 := WithSizes(s', s.pm);
    WithSizesConsistent(s', s.pm, None);
    RootIsTarget(s', None, None, s'.pm[v].set_);
    GrowthCovers(s0, addr, v, size, t);
    assert s' == Resized(s0, v, size);
    if s.pm[v].size > 0 || !Outgrows(s', addr, v, t) {
      forall p, q | Overlap(s', addr, p, q) ensures SameSet(s', p, q) {
        GrowthOverlap(aa, s, addr, v, size, s', found, t, p, q);
      }
    }
  }

  /** Whatever overlaps after the growth of a pointer that had bytes is in one set, even if its
      first pointer does not cover it any more. */
  lemma GrowthOverlap(aa: Oracle, s: State, addr: Value -> int, v: Value, size: nat, s': State, found: Option<Id>, t: Id,
                      p: Value, q: Value)
    requires Sound(aa, addr) && Consistent(s, None, None) && Separated(s, addr) && v in s.pm && size > s.pm[v].size
    requires Consistent(s', None, None) && Gathered(aa, Resized(s, v, size), s', v, size, s.nextId, found)
    requires ResolvesTo(s', v, t) && (s.pm[v].size > 0 || !Outgrows(s', addr, v, t)) && Overlap(s', addr, p, q)
    ensures SameSet(s', p, q)
  {
    if p != v && q != v {
      assert Overlap(s, addr, p, q);
      GrowthJoins(aa, s, v, size, s', found, p, q);
    } else {
      GrowthOverlapV(aa, s, addr, v, size, s', found, t, if p == v then q else p);
    }
  }

  lemma GrowthJoins(aa: Oracle, s: State, v: Value, size: nat, s': State, found: Option<Id>, p: Value, q: Value)
    requires Consistent(s, None, None) && v in s.pm
    requires Consistent(s', None, None) && Gathered(aa, Resized(s, v, size), s', v, size, s.nextId, found)
    requires p in s.pm && q in s.pm
    requires SameSet(s, p, q) ||
      (TouchedBy(aa, Resized(s, v, size), v, size, p) && TouchedBy(aa, Resized(s, v, size), v, size, q))
    ensures SameSet(s', p, q)
  {
    hide Touches, Consistent, Gathered;
    var s1 := Resized(s, v, size);
    ResizeConsistent(s, v, size, None);
    GatheredJoins(aa, s1, s', v, size, found);
    assert SameSet(s, p, q) ==> SameSet(s1, p, q);
  }

  lemma GrowthOverlapV(aa: Oracle, s: State, addr: Value -> int, v: Value, size: nat, s': State, found: Option<Id>, t: Id, q: Value)
    requires Sound(aa, addr) && Consistent(s, None, None) && Separated(s, addr) && v in s.pm && size > s.pm[v].size
    requires Consistent(s', None, None) && Gathered(aa, Resized(s, v, size), s', v, size, s.nextId, found)
    requires ResolvesTo(s', v, t) && (s.pm[v].size > 0 || !Outgrows(s', addr, v, t)) && Overlap(s', addr, v, q)
    ensures SameSet(s', v, q) && SameSet(s', q, v)
  {
    hide Touches, Separated, Sound;
    var s1 := Resized(s, v, size);
    var tv, u := s.root[s.pm[v].set_], s.root[s.pm[q].set_];
    RootIsTarget(s, None, None, s.pm[v].set_);
    RootIsTarget(s, None, None, s.pm[q].set_);
    assert s'.pm.Keys == s1.pm.Keys && s1.pm.Keys == s.pm.Keys;
    assert q in s.pm.Keys;
    assert ResolvesTo(s, v, tv) && ResolvesTo(s, q, u);
    if tv == u {
      assert SameSet(s, v, q);
    } else {
      GrownTouchesOverlap(aa, s, addr, v, size, q, u);
      GrownTouchesOwn(aa, s, addr, v, size, tv);
      if !Touches(aa, s1, tv, v, size) {
        OutgrownStays(aa, s, addr, v, size, s', found, t);
      }
      assert TouchedBy(aa, s1, v, size, v) && TouchedBy(aa, s1, v, size, q);
    }
    GrowthJoins(aa, s, v, size, s', found, v, q);
  }

  /** A set that is not touched is left as it is. */
  lemma OutgrownStays(aa: Oracle, s: State, addr: Value -> int, v: Value, size: nat, s': State, found: Option<Id>, t: Id)
    requires Consistent(s, None, None) && v in s.pm && size > s.pm[v].size
    requires Consistent(s', None, None) && Gathered(aa, Resized(s, v, size), s', v, size, s.nextId, found)
    requires ResolvesTo(s', v, t) && s.pm[v].set_ in s.root
    requires Outgrows(Resized(s, v, size), addr, v, s.root[s.pm[v].set_])
    requires !Touches(aa, Resized(s, v, size), s.root[s.pm[v].set_], v, size)
    ensures Outgrows(s', addr, v, t)
  {
    hide Touches;
    var s1 := Resized(s, v, size);
    ResizeConsistent(s, v, size, None);
    GatheredAt(aa, s1, s', v, size, found, v);
    RootIsTarget(s', None, None, s'.pm[v].set_);
    assert SetOk(s', None, None, t);
    assert t == s.root[s.pm[v].set_];
  }

  /** Pointers already known keep their groups when another one is added. */
  lemma AddedGroups(aa: Oracle, s: State, s1: State, t: Id, v: Value, size: nat, a: AliasLattice)
    requires t in s.sets && t in s.root && s.root[t] == t && v !in s.pm
    requires s1.sets == s.sets && s1.root == s.root && s1.pm.Keys == s.pm.Keys
    requires forall w | w in s.pm :: s1.pm[w].set_ == s.pm[w].set_
    ensures forall w, u :: ResolvesTo(Added(s1, t, v, size, a), w, u) <==> if w == v then u == t else ResolvesTo(s, w, u)
  {
  }

  /** After a pointer is added: the known pointers are regrouped by joining the groups it
      touches, and it shares a set with exactly those. */
  ghost predicate Inserted(aa: Oracle, s: State, s': State, v: Value, size: nat) {
    && Joins(aa, s, s', v, size)
    && v in s'.pm && forall p | p in s.pm :: SameSet(s', v, p) <==> TouchedBy(aa, s, v, size, p)
  }

  lemma InsertedAfterAdd(aa: Oracle, s: State, s1: State, s2: State, t: Id, v: Value, size: nat, found: Option<Id>)
    requires Consistent(s, None, None) && Consistent(s1, None, None) && Gathered(aa, s, s1, v, size, s.nextId, found)
    requires v !in s.pm && v in s2.pm && s1.pm.Keys == s.pm.Keys
    requires forall w, u :: ResolvesTo(s2, w, u) <==> if w == v then u == t else ResolvesTo(s1, w, u)
    requires if found.Some? then t == found.value else forall w :: !ResolvesTo(s1, w, t)
    ensures Inserted(aa, s, s2, v, size)
  {
    hide Touches, Consistent, Gathered;
    GatheredJoins(aa, s, s1, v, size, found);
    forall p, q | p in s.pm && q in s.pm ensures SameSet(s2, p, q) <==> SameSet(s1, p, q) {
      assert p != v && q != v;
    }
    forall p | p in s.pm ensures SameSet(s2, v, p) <==> TouchedBy(aa, s, v, size, p) {
      assert SameSet(s2, v, p) <==> ResolvesTo(s2, v, t) && ResolvesTo(s2, p, t);
    }
  }
}
