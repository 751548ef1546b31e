/** Choosing FileCheck prefixes for blocks of tool output. Prefixes are numbered in sorting order. */
module CheckPrefixes {
  import opened Wrappers

  type Prefix = int

  // ----- The smallest prefix of a set -----

  function MinOf(s: set<Prefix>): (m: Prefix)
    requires s != {}
    ensures m in s && forall p | p in s :: m <= p
  {
    SomeMinimum(s);
    var m :| m in s && forall p | p in s :: m <= p;
    m
  }

  lemma {:induction false} SomeMinimum(s: set<Prefix>)
    requires s != {}
    ensures exists m :: m in s && forall p | p in s :: m <= p
    decreases |s|
  {
    var x := SomeElement(s);
    var rest := s - {x};
    if rest == {} {
      assert s == {x};
    } else {
      SomeMinimum(rest);
      var m :| m in rest && forall p | p in rest :: m <= p;
      var least := if x <= m then x else m;
      forall p | p in s ensures least <= p {
        assert p == x || p in rest;
      }
    }
  }

  // ----- Pruning one block -----

  /** For each block text, the prefix sets of the RUN lines that produced it. */
  type SetLists = seq<seq<set<Prefix>>>

  ghost predicate Carries(lists: SetLists, i: int, k: int, p: Prefix) {
    0 <= i < |lists| && 0 <= k < |lists[i]| && p in lists[i][k]
  }

  /** The prefixes some RUN line of another text carries. */
  ghost predicate CarriedElsewhere(lists: SetLists, i: int, p: Prefix) {
    exists j, k :: j != i && Carries(lists, j, k, p)
  }

  function UnionOf(sets: seq<set<Prefix>>): set<Prefix> {
    if sets == [] then {} else sets[0] + UnionOf(sets[1..])
  }

  lemma {:induction false} UnionHas(sets: seq<set<Prefix>>, p: Prefix)
    ensures p in UnionOf(sets) <==> exists k :: 0 <= k < |sets| && p in sets[k]
  {
    if sets != [] {
      UnionHas(sets[1..], p);
      if exists k :: 0 <= k < |sets| && p in sets[k] {
        var k :| 0 <= k < |sets| && p in sets[k];
        assert k > 0 ==> p in sets[1..][k - 1];
      }
      if p in UnionOf(sets[1..]) {
        var k :| 0 <= k < |sets[1..]| && p in sets[1..][k];
        assert p in sets[k + 1];
      }
    }
  }

  /** Everything carried by RUN lines of other texts. */
  method OtherSetValues(lists: SetLists, i: nat) returns (others: set<Prefix>)
    requires i < |lists|
    ensures forall p :: p in others <==> CarriedElsewhere(lists, i, p)
  {
    others := {};
    for j := 0 to |lists|
      invariant forall p :: p in others <==> exists j', k :: j' < j && j' != i && Carries(lists, j', k, p)
    {
      forall p ensures p in UnionOf(lists[j]) <==> exists k :: Carries(lists, j, k, p) {
        UnionHas(lists[j], p);
        if p in UnionOf(lists[j]) {
          var k :| 0 <= k < |lists[j]| && p in lists[j][k];
          assert Carries(lists, j, k, p);
        }
      }
      if j != i {
        others := others + UnionOf(lists[j]);
      }
    }
  }

  function IntersectionOf(sets: seq<set<Prefix>>): set<Prefix>
    requires sets != []
  {
    if |sets| == 1 then sets[0] else sets[0] * IntersectionOf(sets[1..])
  }

  lemma {:induction false} IntersectionHas(sets: seq<set<Prefix>>, p: Prefix)
    requires sets != []
    ensures p in IntersectionOf(sets) <==> forall k | 0 <= k < |sets| :: p in sets[k]
  {
    if |sets| > 1 {
      IntersectionHas(sets[1..], p);
      assert forall k | 0 < k < |sets| :: sets[k] == sets[1..][k - 1];
    }
  }

  /** What may be written for text i: prefixes of its own RUN lines that stand for no other text,
      and one for every RUN line that still has any. */
  ghost predicate Minimal(lists: SetLists, i: int, kept: set<Prefix>)
    requires 0 <= i < |lists|
  {
    && (forall p | p in kept :: !CarriedElsewhere(lists, i, p) && exists k :: Carries(lists, i, k, p))
    && (forall k | 0 <= k < |lists[i]| :: Coverable(lists, i, k) ==> exists p :: p in kept && p in lists[i][k])
  }

  /** The RUN line has a prefix that no other text shares. */
  ghost predicate Coverable(lists: SetLists, i: int, k: int)
    requires 0 <= i < |lists| && 0 <= k < |lists[i]|
  {
    exists p :: p in lists[i][k] && !CarriedElsewhere(lists, i, p)
  }

  /** A prefix that all the pruned sets share covers every RUN line of the text. */
  lemma CommonCovers(lists: SetLists, i: nat, pruned: seq<set<Prefix>>, m: Prefix)
    requires i < |lists| && lists[i] != [] && |pruned| == |lists[i]|
    requires forall k | 0 <= k < |pruned| :: pruned[k] <= lists[i][k] && m in pruned[k]
    requires !CarriedElsewhere(lists, i, m)
    ensures Minimal(lists, i, {m})
  {
    assert m in pruned[0];
    assert Carries(lists, i, 0, m);
    forall k | 0 <= k < |lists[i]| ensures m in {m} && m in lists[i][k] {
      assert m in pruned[k];
    }
  }

  ghost predicate IsLeast(s: set<Prefix>, m: Prefix) { m in s && forall p | p in s :: m <= p }

  /** A prefix no other text shares, on one RUN line, or on all of them. */
  ghost predicate Usable(lists: SetLists, i: int, k: int, p: Prefix)
    requires 0 <= i < |lists| && 0 <= k < |lists[i]|
  {
    p in lists[i][k] && !CarriedElsewhere(lists, i, p)
  }

  ghost predicate UsableForAll(lists: SetLists, i: int, p: Prefix)
    requires 0 <= i < |lists|
  {
    !CarriedElsewhere(lists, i, p) && forall k | 0 <= k < |lists[i]| :: p in lists[i][k]
  }

  ghost predicate LeastForAll(lists: SetLists, i: int, m: Prefix)
    requires 0 <= i < |lists|
  {
    UsableForAll(lists, i, m) && forall p | UsableForAll(lists, i, p) :: m <= p
  }

  ghost predicate LeastFor(lists: SetLists, i: int, k: int, m: Prefix)
    requires 0 <= i < |lists|
  {
    0 <= k < |lists[i]| && Usable(lists, i, k, m) && forall p | Usable(lists, i, k, p) :: m <= p
  }

  /** Which prefixes are kept: the least that serves all RUN lines, if there is one; otherwise the
      least for each RUN line that has any. */
  ghost predicate Chosen(lists: SetLists, i: int, kept: set<Prefix>)
    requires 0 <= i < |lists|
  {
    if exists p :: UsableForAll(lists, i, p) then exists m :: kept == {m} && LeastForAll(lists, i, m)
    else forall m :: m in kept <==> exists k :: LeastFor(lists, i, k, m)
  }

  lemma InAllPruned(lists: SetLists, i: nat, others: set<Prefix>, pruned: seq<set<Prefix>>, p: Prefix)
    requires i < |lists| && |pruned| == |lists[i]| > 0 && (p in others <==> CarriedElsewhere(lists, i, p))
    requires forall k | 0 <= k < |pruned| :: pruned[k] == lists[i][k] - others
    ensures (forall k | 0 <= k < |pruned| :: p in pruned[k]) <==> UsableForAll(lists, i, p)
  {
    hide CarriedElsewhere;
    assert pruned[0] == lists[i][0] - others;
    if UsableForAll(lists, i, p) {
      forall k | 0 <= k < |pruned| ensures p in pruned[k] {
        assert p in lists[i][k];
      }
    }
    if forall k | 0 <= k < |pruned| :: p in pruned[k] {
      assert p in pruned[0];
      forall k | 0 <= k < |lists[i]| ensures p in lists[i][k] {
        assert p in pruned[k];
      }
    }
  }

  lemma ChosenCommon(lists: SetLists, i: nat, common: set<Prefix>, m: Prefix)
    requires i < |lists| && IsLeast(common, m) && forall p :: p in common <==> UsableForAll(lists, i, p)
    ensures Chosen(lists, i, {m})
  {
    hide UsableForAll;
    assert UsableForAll(lists, i, m);
    assert LeastForAll(lists, i, m);
  }

  lemma ChosenEach(lists: SetLists, i: nat, pruned: seq<set<Prefix>>, kept: set<Prefix>)
    requires i < |lists| && |pruned| == |lists[i]| && forall p :: !UsableForAll(lists, i, p)
    requires forall k, p | 0 <= k < |pruned| :: p in pruned[k] <==> Usable(lists, i, k, p)
    requires forall m :: m in kept <==> exists k :: 0 <= k < |pruned| && IsLeast(pruned[k], m)
    ensures Chosen(lists, i, kept)
  {
    hide UsableForAll, Usable;
    forall k, m ensures LeastFor(lists, i, k, m) <==> 0 <= k < |pruned| && IsLeast(pruned[k], m) {
    }
    forall m ensures m in kept <==> exists k :: LeastFor(lists, i, k, m) {
      if m in kept {
        var k :| 0 <= k < |pruned| && IsLeast(pruned[k], m);
        assert LeastFor(lists, i, k, m);
      }
    }
  }

  ghost predicate Meet(a: set<Prefix>, b: set<Prefix>) { exists p :: p in a && p in b }

  lemma MeetMore(a: set<Prefix>, m: Prefix, b: set<Prefix>)
    ensures Meet(a, b) ==> Meet(a + {m}, b)
    ensures m in b ==> Meet(a + {m}, b)
  {
    assert m in a + {m};
    if Meet(a, b) {
      var p :| p in a && p in b;
      assert p in a + {m};
    }
  }

  /** So do the smallest prefixes of all pruned sets together. */
  lemma OnePerSetCovers(lists: SetLists, i: nat, pruned: seq<set<Prefix>>, kept: set<Prefix>)
    requires i < |lists| && |pruned| == |lists[i]|
    requires forall k | 0 <= k < |pruned| :: pruned[k] <= lists[i][k]
    requires forall k, p | 0 <= k < |pruned| && p in lists[i][k] :: p in pruned[k] <==> !CarriedElsewhere(lists, i, p)
    requires forall p | p in kept :: exists k :: 0 <= k < |pruned| && p in pruned[k]
    requires forall k | 0 <= k < |pruned| && pruned[k] != {} :: Meet(kept, pruned[k])
    ensures Minimal(lists, i, kept)
  {
    hide CarriedElsewhere;
    forall p | p in kept ensures !CarriedElsewhere(lists, i, p) && exists k :: Carries(lists, i, k, p) {
      var k :| 0 <= k < |pruned| && p in pruned[k];
      assert Carries(lists, i, k, p);
    }
    forall k | 0 <= k < |lists[i]| && Coverable(lists, i, k) ensures exists p :: p in kept && p in lists[i][k] {
      var q :| q in lists[i][k] && !CarriedElsewhere(lists, i, q);
      assert q in pruned[k];
      var p :| p in kept && p in pruned[k];
    }
  }

  method SmallestOfEach(sets: seq<set<Prefix>>) returns (kept: set<Prefix>)
    ensures forall p | p in kept :: exists k :: 0 <= k < |sets| && p in sets[k]
    ensures forall k | 0 <= k < |sets| && sets[k] != {} :: Meet(kept, sets[k])
    ensures forall m :: m in kept <==> exists k :: 0 <= k < |sets| && IsLeast(sets[k], m)
  {
    hide Meet, MinOf;
    kept := {};
    for k := 0 to |sets|
      invariant forall m :: m in kept <==> exists k' :: 0 <= k' < k && IsLeast(sets[k'], m)
      invariant forall p | p in kept :: exists k' :: 0 <= k' < k && p in sets[k']
      invariant forall k' | 0 <= k' < k && sets[k'] != {} :: Meet(kept, sets[k'])
    {
      if sets[k] != {} {
        var m := MinOf(sets[k]);
        forall k' | 0 <= k' <= k && sets[k'] != {} ensures Meet(kept + {m}, sets[k']) {
          MeetMore(kept, m, sets[k']);
        }
        OneLeast(sets[k], m);
        kept := kept + {m};
      }
    }
  }

  lemma LeastIs(s: set<Prefix>, m: Prefix)
    requires m in s && forall p | p in s :: m <= p
    ensures IsLeast(s, m)
  {
  }

  lemma OneLeast(s: set<Prefix>, m: Prefix)
    requires IsLeast(s, m)
    ensures forall l :: IsLeast(s, l) <==> l == m
  {
  }

  /** Prune the prefixes of one text: drop what other texts use, keep what all its RUN lines
      share if there is anything, and take the smallest prefix of each remaining set. */
  method PruneText(lists: SetLists, i: nat) returns (kept: set<Prefix>)
    requires i < |lists| && lists[i] != []
    ensures Minimal(lists, i, kept) && Chosen(lists, i, kept)
  {
    var others := OtherSetValues(lists, i);
    var pruned := seq(|lists[i]|, k requires 0 <= k < |lists[i]| => lists[i][k] - others);
    var common := IntersectionOf(pruned);
    hide IntersectionOf, CarriedElsewhere, Carries, Minimal, Meet, Chosen, IsLeast;
    forall p ensures p in common <==> forall k | 0 <= k < |pruned| :: p in pruned[k] {
      IntersectionHas(pruned, p);
    }
    forall p ensures p in common <==> UsableForAll(lists, i, p) {
      InAllPruned(lists, i, others, pruned, p);
    }
    if common != {} {
      assert MinOf(common) in pruned[0];
      LeastIs(common, MinOf(common));
      ChosenCommon(lists, i, common, MinOf(common));
      CommonCovers(lists, i, pruned, MinOf(common));
      return {MinOf(common)};
    }
    kept := SmallestOfEach(pruned);
    ChosenEach(lists, i, pruned, kept);
    OnePerSetCovers(lists, i, pruned, kept);
  }

  /** Prune every text of a block. */
  method PruneBlock(lists: SetLists) returns (kept: seq<set<Prefix>>)
    requires forall i | 0 <= i < |lists| :: lists[i] != []
    ensures |kept| == |lists| && forall i | 0 <= i < |lists| :: Minimal(lists, i, kept[i]) && Chosen(lists, i, kept[i])
  {
    hide Minimal, Chosen;
    kept := [];
    for i := 0 to |lists|
      invariant |kept| == i && forall j | 0 <= j < i :: Minimal(lists, j, kept[j]) && Chosen(lists, j, kept[j])
    {
      var one := PruneText(lists, i);
      kept := kept + [one];
    }
  }

  /** A kept prefix stands for one text only, and a prefix of RUN lines of several texts, such as
      the one common to all, is never kept. */
  lemma KeptBelongsToOneText(lists: SetLists, kept: seq<set<Prefix>>, i: int, j: int, p: Prefix)
    requires |kept| == |lists| && forall i | 0 <= i < |lists| :: Minimal(lists, i, kept[i])
    requires 0 <= i < |lists| && 0 <= j < |lists| && p in kept[i]
    ensures p in kept[j] ==> i == j
    ensures forall k | 0 <= k < |lists[j]| && p in lists[j][k] :: i == j
  {
    if p in kept[j] {
      var k :| Carries(lists, j, k, p);
    }
    forall k | 0 <= k < |lists[j]| && p in lists[j][k] ensures i == j {
      assert Carries(lists, j, k, p);
    }
  }

  // ----- Breaking a block down by lines -----

  type Text = seq<int>

  datatype CheckLine = CheckLine(prefix: Prefix, line: int)

  /** What FileCheck sees when it looks for two prefixes. */
  function Filter(result: seq<CheckLine>, common: Prefix, p: Prefix): Text {
    if result == [] then []
    else
      var l := result[|result| - 1];
      Filter(result[..|result| - 1], common, p) + if l.prefix == common || l.prefix == p then [l.line] else []
  }

  lemma {:induction false} FilterConcat(a: seq<CheckLine>, b: seq<CheckLine>, common: Prefix, p: Prefix)
    ensures Filter(a + b, common, p) == Filter(a, common, p) + Filter(b, common, p)
  {
    if b == [] {
      assert a + b == a;
    } else {
      var n := |b| - 1;
      assert (a + b)[..|a + b| - 1] == a + b[..n];
      FilterConcat(a, b[..n], common, p);
    }
  }

  /** A batch of lines for one prefix. */
  function Labelled(p: Prefix, lines: Text): (r: seq<CheckLine>)
    ensures |r| == |lines| && forall k | 0 <= k < |lines| :: r[k] == CheckLine(p, lines[k])
  {
    seq(|lines|, k requires 0 <= k < |lines| => CheckLine(p, lines[k]))
  }

  lemma {:induction false} FilterLabelled(q: Prefix, lines: Text, common: Prefix, p: Prefix)
    requires q != common
    ensures Filter(Labelled(q, lines), common, p) == if q == p then lines else []
  {
    if lines != [] {
      var n := |lines| - 1;
      FilterLabelled(q, lines[..n], common, p);
      assert Labelled(q, lines)[..n] == Labelled(q, lines[..n]);
      assert lines == lines[..n] + [lines[n]];
    }
  }

  /** The lines batched up for a prefix since the last common line. */
  function Batch(batches: map<Prefix, Text>, p: Prefix): Text {
    if p in batches then batches[p] else []
  }

  /** Write out the batches, one prefix at a time in sorting order. */
  method Flush(result: seq<CheckLine>, batches: map<Prefix, Text>, ghost common: Prefix) returns (r: seq<CheckLine>)
    requires common !in batches
    ensures forall p :: Filter(r, common, p) == Filter(result, common, p) + Batch(batches, p)
    ensures |r| >= |result|
  {
    r := result;
    var todo := batches.Keys;
    while todo != {}
      invariant todo <= batches.Keys && |r| >= |result|
      invariant forall p ::
                  Filter(r, common, p) == Filter(result, common, p) + if p in todo then [] else Batch(batches, p)
    {
      var q := MinOf(todo);
      var batch := Labelled(q, batches[q]);
      forall p
        ensures Filter(r + batch, common, p) == Filter(result, common, p) + if p in todo - {q} then [] else Batch(batches, p)
      {
        FilterConcat(r, batch, common, p);
        FilterLabelled(q, batches[q], common, p);
      }
      r, todo := r + batch, todo - {q};
    }
  }

  ghost predicate SameLength(texts: seq<Text>, n: nat) {
    forall i | 0 <= i < |texts| :: |texts[i]| == n
  }

  predicate AllEqual(texts: seq<Text>, k: nat)
    requires forall i | 0 <= i < |texts| :: k < |texts[i]|
  {
    forall i, j | 0 <= i < |texts| && 0 <= j < |texts| :: texts[i][k] == texts[j][k]
  }

  /** No two texts share a prefix, and none uses the common one. */
  ghost predicate OneOwner(prefixes: seq<seq<Prefix>>, common: Prefix) {
    && (forall i, j, p | 0 <= i < |prefixes| && 0 <= j < |prefixes| && p in prefixes[i] && p in prefixes[j] :: i == j)
    && (forall i | 0 <= i < |prefixes| :: common !in prefixes[i])
    && (forall i, a, b | 0 <= i < |prefixes| && 0 <= a < b < |prefixes[i]| :: prefixes[i][a] != prefixes[i][b])
  }

  /** Batch up one line under each of a text's prefixes. */
  method BatchLine(prefixes: seq<Prefix>, line: int, batches: map<Prefix, Text>) returns (r: map<Prefix, Text>)
    requires forall a, b | 0 <= a < b < |prefixes| :: prefixes[a] != prefixes[b]
    ensures forall p :: p in r <==> p in batches || p in prefixes
    ensures forall p :: Batch(r, p) == Batch(batches, p) + if p in prefixes then [line] else []
  {
    r := batches;
    for a := 0 to |prefixes|
      invariant forall p :: p in r <==> p in batches || p in prefixes[..a]
      invariant forall p :: Batch(r, p) == Batch(batches, p) + if p in prefixes[..a] then [line] else []
    {
      var q := prefixes[a];
      assert q !in prefixes[..a];
      assert prefixes[..a + 1] == prefixes[..a] + [q];
      r := r[q := Batch(r, q) + [line]];
    }
    assert prefixes[..|prefixes|] == prefixes;
  }

  /** Batch up line k of every text under each of the text's prefixes. */
  method BatchLines(texts: seq<Text>, prefixes: seq<seq<Prefix>>, common: Prefix, k: nat, batches: map<Prefix, Text>)
    returns (r: map<Prefix, Text>)
    requires |prefixes| == |texts| && OneOwner(prefixes, common) && common !in batches
    requires forall i | 0 <= i < |texts| :: k < |texts[i]|
    ensures common !in r
    ensures forall i, p | 0 <= i < |texts| && p in prefixes[i] :: Batch(r, p) == Batch(batches, p) + [texts[i][k]]
  {
    r := batches;
    for i := 0 to |texts|
      invariant common !in r
      invariant forall j, p | 0 <= j < |texts| && p in prefixes[j] ::
                  Batch(r, p) == Batch(batches, p) + if j < i then [texts[j][k]] else []
    {
      r := BatchLine(prefixes[i], texts[i][k], r);
    }
  }

  /** What has been written and batched up for each prefix is its text so far. */
  ghost predicate BrokenDown(texts: seq<Text>, prefixes: seq<seq<Prefix>>, common: Prefix, k: nat,
                             result: seq<CheckLine>, batches: map<Prefix, Text>)
    requires |prefixes| == |texts| && forall i | 0 <= i < |texts| :: k <= |texts[i]|
  {
    && common !in batches
    && (forall i, p | 0 <= i < |texts| && p in prefixes[i] :: Filter(result, common, p) + Batch(batches, p) == texts[i][..k])
  }

  /** A common line goes behind the batches. */
  lemma CommonLine(texts: seq<Text>, prefixes: seq<seq<Prefix>>, common: Prefix, k: nat,
                   result: seq<CheckLine>, batches: map<Prefix, Text>, flushed: seq<CheckLine>)
    requires texts != [] && |prefixes| == |texts| && forall i | 0 <= i < |texts| :: k < |texts[i]|
    requires OneOwner(prefixes, common) && BrokenDown(texts, prefixes, common, k, result, batches) && AllEqual(texts, k)
    requires forall p | p != common :: Filter(flushed, common, p) == Filter(result, common, p) + Batch(batches, p)
    ensures BrokenDown(texts, prefixes, common, k + 1, flushed + [CheckLine(common, texts[0][k])], map[])
  {
    var line := CheckLine(common, texts[0][k]);
    forall i, p | 0 <= i < |texts| && p in prefixes[i]
      ensures Filter(flushed + [line], common, p) + Batch(map[], p) == texts[i][..k + 1]
    {
      FilterConcat(flushed, [line], common, p);
      assert [line][..0] == [];
      assert texts[i][k] == texts[0][k];
      assert texts[i][..k + 1] == texts[i][..k] + [texts[i][k]];
    }
  }

  lemma DifferingLine(texts: seq<Text>, prefixes: seq<seq<Prefix>>, common: Prefix, k: nat,
                      result: seq<CheckLine>, batches: map<Prefix, Text>, r: map<Prefix, Text>)
    requires |prefixes| == |texts| && forall i | 0 <= i < |texts| :: k < |texts[i]|
    requires BrokenDown(texts, prefixes, common, k, result, batches) && common !in r
    requires forall i, p | 0 <= i < |texts| && p in prefixes[i] :: Batch(r, p) == Batch(batches, p) + [texts[i][k]]
    ensures BrokenDown(texts, prefixes, common, k + 1, result, r)
  {
    hide Filter, Batch;
    forall i, p | 0 <= i < |texts| && p in prefixes[i]
      ensures Filter(result, common, p) + Batch(r, p) == texts[i][..k + 1]
    {
      assert texts[i][..k + 1] == texts[i][..k] + [texts[i][k]];
      assert Filter(result, common, p) + Batch(batches, p) == texts[i][..k];
      assert Filter(result, common, p) + Batch(r, p) == Filter(result, common, p) + Batch(batches, p) + [texts[i][k]];
    }
  }

  /** The lines that are the same in all texts, among the first k. */
  function SharedLines(texts: seq<Text>, k: nat): Text
    requires texts != [] && forall i | 0 <= i < |texts| :: k <= |texts[i]|
  {
    if k == 0 then []
    else SharedLines(texts, k - 1) + if forall i | 0 <= i < |texts| :: texts[i][k - 1] == texts[0][k - 1] then [texts[0][k - 1]] else []
  }

  lemma SharedNext(texts: seq<Text>, k: nat)
    requires texts != [] && forall i | 0 <= i < |texts| :: k < |texts[i]|
    ensures SharedLines(texts, k + 1) == SharedLines(texts, k) + if AllEqual(texts, k) then [texts[0][k]] else []
  {
  }

  lemma WriteCommon(flushed: seq<CheckLine>, common: Prefix, line: int)
    ensures Filter(flushed + [CheckLine(common, line)], common, common) == Filter(flushed, common, common) + [line]
  {
    FilterConcat(flushed, [CheckLine(common, line)], common, common);
    assert [CheckLine(common, line)][..0] == [];
  }

  /** Break texts of equal length down line by line; nothing comes back exactly if the first lines
      differ, or if lines differ and the first text has no prefix to tell them apart. */
  method BreakDownBlock(texts: seq<Text>, prefixes: seq<seq<Prefix>>, common: Prefix, n: nat) returns (result: seq<CheckLine>)
    requires texts != [] && |prefixes| == |texts| && n > 0 && SameLength(texts, n) && OneOwner(prefixes, common)
    ensures result == [] <==> !AllEqual(texts, 0) || (prefixes[0] == [] && exists k: nat :: k < n && !AllEqual(texts, k))
    ensures result != [] ==> forall i, p | 0 <= i < |texts| && p in prefixes[i] :: Filter(result, common, p) == texts[i]
    ensures result != [] ==> Filter(result, common, common) == SharedLines(texts, n)
  {
    result := [];
    if !AllEqual(texts, 0) {
      return;
    }
    var batches: map<Prefix, Text> := map[];
    assert BrokenDown(texts, prefixes, common, 0, result, batches);
    assert Filter(result, common, common) == SharedLines(texts, 0) == [];
    hide BrokenDown, Filter, OneOwner, AllEqual, SharedLines;
    for k := 0 to n
      invariant Filter(result, common, common) == SharedLines(texts, k) && common !in batches
      invariant BrokenDown(texts, prefixes, common, k, result, batches)
      invariant k > 0 ==> result != []
      invariant prefixes[0] == [] ==> forall j: nat | j < k :: AllEqual(texts, j)
    {
      BrokenDownKeys(texts, prefixes, common, k, result, batches);
      SharedNext(texts, k);
      if AllEqual(texts, k) {
        var flushed := Flush(result, batches, common);
        CommonLine(texts, prefixes, common, k, result, batches, flushed);
        WriteCommon(flushed, common, texts[0][k]);
        result, batches := flushed + [CheckLine(common, texts[0][k])], map[];
      } else {
        if prefixes[0] == [] {
          return [];
        }
        var r := BatchLines(texts, prefixes, common, k, batches);
        DifferingLine(texts, prefixes, common, k, result, batches, r);
        batches := r;
      }
    }
    BrokenDownKeys(texts, prefixes, common, n, result, batches);
    var last := Flush(result, batches, common);
    AllBrokenDown(texts, prefixes, common, n, result, batches, last);
    result := last;
  }

  lemma BrokenDownKeys(texts: seq<Text>, prefixes: seq<seq<Prefix>>, common: Prefix, k: nat,
                       result: seq<CheckLine>, batches: map<Prefix, Text>)
    requires |prefixes| == |texts| && forall i | 0 <= i < |texts| :: k <= |texts[i]|
    requires BrokenDown(texts, prefixes, common, k, result, batches)
    ensures common !in batches
  {
  }

  lemma AllBrokenDown(texts: seq<Text>, prefixes: seq<seq<Prefix>>, common: Prefix, n: nat,
                      result: seq<CheckLine>, batches: map<Prefix, Text>, last: seq<CheckLine>)
    requires |prefixes| == |texts| && SameLength(texts, n) && OneOwner(prefixes, common)
    requires BrokenDown(texts, prefixes, common, n, result, batches)
    requires forall p | p != common :: Filter(last, common, p) == Filter(result, common, p) + Batch(batches, p)
    ensures forall i, p | 0 <= i < |texts| && p in prefixes[i] :: Filter(last, common, p) == texts[i]
  {
    forall i, p | 0 <= i < |texts| && p in prefixes[i] ensures Filter(last, common, p) == texts[i] {
      assert texts[i][..n] == texts[i];
    }
  }

  /** The prefixes of a set in sorting order. */
  ghost predicate Lists(prefixes: seq<Prefix>, kept: set<Prefix>) {
    && (forall p :: p in prefixes <==> p in kept)
    && (forall a, b | 0 <= a < b < |prefixes| :: prefixes[a] < prefixes[b])
  }

  /** Pruned prefixes can tell lines apart: each has one text, and the prefix that every RUN line
      carries is not among them. */
  lemma PrunedHaveOneOwner(lists: SetLists, kept: seq<set<Prefix>>, prefixes: seq<seq<Prefix>>, common: Prefix)
    requires |kept| == |prefixes| == |lists| >= 2
    requires forall i | 0 <= i < |lists| :: lists[i] != [] && Minimal(lists, i, kept[i]) && Lists(prefixes[i], kept[i])
    requires forall i, k | 0 <= i < |lists| && 0 <= k < |lists[i]| :: common in lists[i][k]
    ensures OneOwner(prefixes, common)
  {
    forall i, j, p | 0 <= i < |prefixes| && 0 <= j < |prefixes| && p in prefixes[i] && p in prefixes[j] ensures i == j {
      KeptBelongsToOneText(lists, kept, i, j, p);
    }
    forall i | 0 <= i < |prefixes| ensures common !in prefixes[i] {
      var j := if i == 0 then 1 else 0;
      if common in kept[i] {
        assert common in lists[j][0];
        KeptBelongsToOneText(lists, kept, i, j, common);
      }
    }
  }
}
