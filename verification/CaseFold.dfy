/** The generator of the simple case folding function: mappings become blocks, and blocks an if-chain. */
module CaseFold {
  import opened Wrappers

  /** A line of the database: one with a common or simple mapping, or any other. */
  datatype Line = Entry(from: int, to: int) | Other

  datatype Mapping = Mapping(from: int, to: int)

  // ----- What the table means -----

  ghost predicate Sorted(ms: seq<Mapping>) {
    && (forall i | 0 <= i < |ms| :: ms[i].from >= 0)
    && (forall i, j | 0 <= i < j < |ms| :: ms[i].from < ms[j].from)
  }

  ghost predicate IsKey(ms: seq<Mapping>, c: int) {
    exists k :: 0 <= k < |ms| && ms[k].from == c
  }

  // ----- The generated function -----

  /** One test of the generated C++ function, and what it returns when it succeeds. */
  datatype Test =
    | IfEqual(key: int, result: int)            // if (C == key) return result;
    | IfBelow(first: int)                       // if (C < first) return C;
    | IfUpTo(last: int, shift: int)             // if (C <= last) return C + shift;
    | IfUpToOr1(last: int)                      // if (C <= last) return C | 1;
    | IfUpToModulo(last: int, stride: int, modulo: int, shift: int)
                                                // if (C <= last && C % stride == modulo) return C + shift;

  /** The remainder of a division that truncates towards zero. */
  function Rem(a: int, b: int): int
    requires b > 0
  {
    if a >= 0 then a % b else -((-a) % b)
  }

  /** Setting the lowest bit. */
  function Or1(c: int): int { if c % 2 == 0 then c + 1 else c }

  function Try(t: Test, c: int): Option<int> {
    match t
    case IfEqual(key, result) => if c == key then Some(result) else None
    case IfBelow(first) => if c < first then Some(c) else None
    case IfUpTo(last, shift) => if c <= last then Some(c + shift) else None
    case IfUpToOr1(last) => if c <= last then Some(Or1(c)) else None
    case IfUpToModulo(last, stride, modulo, shift) =>
      if c <= last && stride > 0 && Rem(c, stride) == modulo then Some(c + shift) else None
  }

  /** The first test that succeeds decides. */
  function Chain(body: seq<Test>, c: int): Option<int> {
    if body == [] then None
    else if Try(body[0], c).Some? then Try(body[0], c) else Chain(body[1..], c)
  }

  /** The generated function: the chain, then `return C`. */
  function FoldChar(body: seq<Test>, c: int): int {
    if Chain(body, c).Some? then Chain(body, c).value else c
  }

  lemma {:induction false} ChainAppend(a: seq<Test>, b: seq<Test>, c: int)
    ensures Chain(a + b, c) == if Chain(a, c).Some? then Chain(a, c) else Chain(b, c)
  {
    if a == [] {
      assert a + b == b;
    } else {
      ChainAppend(a[1..], b, c);
      assert (a + b)[1..] == a[1..] + b;
    }
  }

  // ----- Arithmetic of strides -----

  lemma MulOrder(a: int, b: int, s: int)
    requires s > 0
    ensures a < b ==> a * s + s <= b * s
  {
    if a < b {
      var d := b - a - 1;
      assert d * s >= 0 && b * s == a * s + s + d * s;
    }
  }

  /** Counting in steps of s stays in the same class modulo s. */
  lemma StepsKeepModulo(first: int, k: int, s: int)
    requires s > 0
    ensures (first + k * s) % s == first % s
  {
    var q, r := first / s, first % s;
    var q', r' := (first + k * s) / s, (first + k * s) % s;
    assert first == q * s + r && first + k * s == q' * s + r';
    assert (q + k) * s == q * s + k * s;
    MulOrder(q', q + k, s);
    MulOrder(q + k, q', s);
  }

  /** Numbers of the same class are a whole number of steps apart. */
  lemma ModuloMeansSteps(first: int, c: int, s: int) returns (k: int)
    requires s > 0 && c % s == first % s && first <= c
    ensures c == first + k * s && k >= 0
  {
    k := c / s - first / s;
    assert c == c / s * s + c % s && first == first / s * s + first % s;
    assert k * s == c / s * s - first / s * s;
    if k < 0 {
      MulOrder(k, 0, s);
    }
  }

  // ----- Blocks -----

  function Shift(m: Mapping): int { m.to - m.from }

  function Stride(b: seq<Mapping>): int
    requires |b| >= 2
  {
    b[1].from - b[0].from
  }

  /** Equal shifts, and equal distances between neighbours. */
  ghost predicate IsBlock(b: seq<Mapping>) {
    && b != []
    && (forall k | 0 <= k < |b| :: Shift(b[k]) == Shift(b[0]))
    && (|b| >= 2 ==> forall k | 0 < k < |b| :: b[k].from - b[k - 1].from == Stride(b))
  }

  lemma {:induction false} BlockKeys(b: seq<Mapping>, k: int)
    requires IsBlock(b) && |b| >= 2 && 0 <= k < |b|
    ensures b[k].from == b[0].from + k * Stride(b)
  {
    if k > 0 {
      BlockKeys(b, k - 1);
      assert k * Stride(b) == (k - 1) * Stride(b) + Stride(b);
    }
  }

  /** How the range of a longer block is tested once the characters below it are gone. */
  function Pattern(first: int, last: int, stride: int, shift: int): Test
    requires stride > 0
  {
    if stride == 2 && shift == 1 && first % 2 == 0 then IfUpToOr1(last)
    else if stride == 1 then IfUpTo(last, shift)
    else IfUpToModulo(last, stride, first % stride, shift)
  }

  /** The tests for one block. */
  function Dump(b: seq<Mapping>): seq<Test>
    requires b != [] && (|b| >= 2 ==> Stride(b) > 0)
  {
    if |b| == 1 then [IfEqual(b[0].from, b[0].to)]
    else
      [IfBelow(b[0].from), Pattern(b[0].from, b[0].from + Stride(b) * (|b| - 1), Stride(b), Shift(b[0]))]
  }

  lemma ChainOfTwo(t: Test, u: Test, c: int)
    ensures Chain([t, u], c) == if Try(t, c).Some? then Try(t, c) else Try(u, c)
  {
    assert [t, u][1..] == [u] && [u][1..] == [];
    assert Chain([u], c) == if Try(u, c).Some? then Try(u, c) else Chain([u][1..], c);
    assert Try(u, c).None? ==> Chain([u], c) == None;
  }

  /** Within the range the pattern maps the class of the first character; the only others it
      takes are odd ones that C | 1 leaves alone. */
  lemma PatternInRange(first: int, last: int, stride: int, shift: int, c: int)
    requires stride > 0 && 0 <= first <= c
    ensures c > last ==> Try(Pattern(first, last, stride, shift), c) == None
    ensures c <= last && c % stride == first % stride ==> Try(Pattern(first, last, stride, shift), c) == Some(c + shift)
    ensures c <= last && c % stride != first % stride ==>
              Try(Pattern(first, last, stride, shift), c) == None || Try(Pattern(first, last, stride, shift), c) == Some(c)
  {
  }

  lemma DumpSingle(b: seq<Mapping>, c: int)
    requires |b| == 1
    ensures Chain(Dump(b), c) == if c == b[0].from then Some(b[0].to) else None
  {
    assert Dump(b)[1..] == [];
  }

  /** The tests of a longer block, below, inside and above its range. */
  lemma DumpRange(b: seq<Mapping>, c: int)
    requires |b| >= 2 && IsBlock(b) && b[0].from >= 0 && Stride(b) > 0
    ensures c < b[0].from ==> Chain(Dump(b), c) == Some(c)
    ensures c > b[|b| - 1].from && c >= b[0].from ==> Chain(Dump(b), c) == None
    ensures b[0].from <= c <= b[|b| - 1].from && c % Stride(b) == b[0].from % Stride(b) ==>
              Chain(Dump(b), c) == Some(c + Shift(b[0]))
    ensures b[0].from <= c <= b[|b| - 1].from && c % Stride(b) != b[0].from % Stride(b) ==>
              Chain(Dump(b), c) == None || Chain(Dump(b), c) == Some(c)
  {
    hide Chain, Try, Pattern;
    BlockKeys(b, |b| - 1);
    var first, last := b[0].from, b[|b| - 1].from;
    ChainOfTwo(IfBelow(first), Pattern(first, last, Stride(b), Shift(b[0])), c);
    BelowTest(first, c);
    if first <= c {
      PatternInRange(first, last, Stride(b), Shift(b[0]), c);
    }
  }

  lemma BelowTest(first: int, c: int)
    ensures Try(IfBelow(first), c) == if c < first then Some(c) else None
  {
  }

  lemma KeyInClass(b: seq<Mapping>, k: int)
    requires |b| >= 2 && IsBlock(b) && Stride(b) > 0 && 0 <= k < |b|
    ensures b[k].from % Stride(b) == b[0].from % Stride(b) && b[0].from <= b[k].from <= b[|b| - 1].from
  {
    BlockKeys(b, k);
    BlockKeys(b, |b| - 1);
    StepsKeepModulo(b[0].from, k, Stride(b));
    MulOrder(k, |b| - 1, Stride(b));
    MulOrder(-1, k, Stride(b));
  }

  lemma ClassMeansKey(b: seq<Mapping>, c: int)
    requires |b| >= 2 && IsBlock(b) && Stride(b) > 0 && b[0].from <= c <= b[|b| - 1].from
    requires c % Stride(b) == b[0].from % Stride(b)
    ensures IsKey(b, c)
  {
    var k := ModuloMeansSteps(b[0].from, c, Stride(b));
    BlockKeys(b, |b| - 1);
    MulOrder(|b| - 1, k, Stride(b));
    BlockKeys(b, k);
    assert b[k].from == c;
  }

  /** A block's tests map exactly its keys; other characters stay, or fall through. */
  lemma DumpExact(b: seq<Mapping>, c: int)
    requires IsBlock(b) && Sorted(b) && (|b| >= 2 ==> Stride(b) > 0)
    ensures IsKey(b, c) ==> Chain(Dump(b), c) == Some(c + Shift(b[0]))
    ensures !IsKey(b, c) ==> Chain(Dump(b), c) == None || Chain(Dump(b), c) == Some(c)
    ensures c > b[|b| - 1].from ==> Chain(Dump(b), c) == None
  {
    hide Chain, Dump;
    if |b| == 1 {
      DumpSingle(b, c);
      assert c == b[0].from ==> IsKey(b, c);
    } else {
      assert b[0].from < b[1].from && b[0].from < b[|b| - 1].from;
      DumpRange(b, c);
      if IsKey(b, c) {
        var k :| 0 <= k < |b| && b[k].from == c;
        KeyInClass(b, k);
      } else if b[0].from <= c <= b[|b| - 1].from && c % Stride(b) == b[0].from % Stride(b) {
        ClassMeansKey(b, c);
      }
    }
  }

  // ----- The generator -----

  /** Everything up to the last mapping dumped is handled: its keys are mapped, no other
      character is changed, and larger characters fall through. */
  ghost predicate Handles(body: seq<Test>, ms: seq<Mapping>, c: int) {
    && (forall k | 0 <= k < |ms| && ms[k].from == c :: Chain(body, c) == Some(ms[k].to))
    && (!IsKey(ms, c) ==> Chain(body, c) == None || Chain(body, c) == Some(c))
    && ((forall k | 0 <= k < |ms| :: ms[k].from < c) ==> Chain(body, c) == None)
  }

  lemma SplitSorted(ms: seq<Mapping>, b: seq<Mapping>)
    requires Sorted(ms + b)
    ensures Sorted(ms) && Sorted(b)
    ensures forall i, j | 0 <= i < |ms| && 0 <= j < |b| :: ms[i].from < b[j].from
  {
    assert forall i | 0 <= i < |ms| :: (ms + b)[i] == ms[i];
    assert forall j | 0 <= j < |b| :: (ms + b)[|ms| + j] == b[j];
  }

  lemma ConcatAt(ms: seq<Mapping>, b: seq<Mapping>, i: int)
    requires 0 <= i < |ms + b|
    ensures (ms + b)[i] == if i < |ms| then ms[i] else b[i - |ms|]
  {
  }

  lemma DumpKeepsKey(ms: seq<Mapping>, b: seq<Mapping>, c: int, r: Option<int>)
    requires Sorted(ms + b) && IsKey(ms, c) && forall k | 0 <= k < |ms| && ms[k].from == c :: r == Some(ms[k].to)
    ensures IsKey(ms + b, c) && !(forall k | 0 <= k < |ms + b| :: (ms + b)[k].from < c)
    ensures forall i | 0 <= i < |ms + b| && (ms + b)[i].from == c :: r == Some((ms + b)[i].to)
  {
    SplitSorted(ms, b);
    var all := ms + b;
    hide Sorted;
    var k :| 0 <= k < |ms| && ms[k].from == c;
    assert all[k].from == c;
    forall i | 0 <= i < |all| && all[i].from == c ensures r == Some(all[i].to) {
      ConcatAt(ms, b, i);
    }
  }

  lemma DumpAddsKey(ms: seq<Mapping>, b: seq<Mapping>, c: int)
    requires Sorted(ms + b) && IsBlock(b) && IsKey(b, c)
    ensures IsKey(ms + b, c) && (forall i | 0 <= i < |ms| :: ms[i].from < c) && !(forall k | 0 <= k < |ms + b| :: (ms + b)[k].from < c)
    ensures forall i | 0 <= i < |ms + b| && (ms + b)[i].from == c :: (ms + b)[i].to == c + Shift(b[0])
  {
    SplitSorted(ms, b);
    var all := ms + b;
    hide Sorted;
    var k :| 0 <= k < |b| && b[k].from == c;
    assert all[|ms| + k].from == c;
    assert forall i | 0 <= i < |ms| :: ms[i].from < b[k].from;
    forall i | 0 <= i < |all| && all[i].from == c ensures all[i].to == c + Shift(b[0]) {
      ConcatAt(ms, b, i);
    }
  }

  lemma NoKey(ms: seq<Mapping>, b: seq<Mapping>, c: int)
    requires b != [] && !IsKey(ms, c) && !IsKey(b, c)
    ensures !IsKey(ms + b, c)
    ensures (forall k | 0 <= k < |ms + b| :: (ms + b)[k].from < c) ==>
              b[|b| - 1].from < c && forall k | 0 <= k < |ms| :: ms[k].from < c
  {
    var all := ms + b;
    forall i | 0 <= i < |all| ensures all[i].from != c {
      ConcatAt(ms, b, i);
    }
    assert b[|b| - 1] == all[|all| - 1];
    assert forall i | 0 <= i < |ms| :: ms[i] == all[i];
  }

  /** Dumping the next block handles its mappings too. */
  lemma DumpHandles(body: seq<Test>, ms: seq<Mapping>, b: seq<Mapping>, c: int)
    requires Handles(body, ms, c) && IsBlock(b) && Sorted(ms + b) && (|b| >= 2 ==> Stride(b) > 0)
    ensures Handles(body + Dump(b), ms + b, c)
  {
    SplitSorted(ms, b);
    ChainAppend(body, Dump(b), c);
    DumpExact(b, c);
    hide Chain, Dump, Sorted, IsBlock;
    if IsKey(ms, c) {
      DumpKeepsKey(ms, b, c, Chain(body, c));
    } else if IsKey(b, c) {
      DumpAddsKey(ms, b, c);
    } else {
      NoKey(ms, b, c);
    }
  }

  /** The mapping lines in order; out-of-order or repeated characters are an error. */
  method Mappings(lines: seq<Line>) returns (r: Option<seq<Mapping>>)
    ensures r.Some? <==> Sorted(Entries(lines))
    ensures r.Some? ==> r.value == Entries(lines)
    ensures r.Some? <==> Ascending(lines)
    ensures r.Some? ==> Sorted(r.value) && forall from, to :: Mapping(from, to) in r.value <==> Entry(from, to) in lines
  {
    hide Sorted, Ascending;
    AscendingIsSorted(lines);
    EntriesHave(lines);
    var previousFrom := -1;
    var ms := [];
    NothingSorted();
    for i := 0 to |lines|
      invariant ms == Entries(lines[..i]) && Sorted(ms)
      invariant previousFrom == if ms == [] then -1 else ms[|ms| - 1].from
    {
      assert lines[..i + 1][..i] == lines[..i];
      match lines[i]
      case Other =>
      case Entry(from, to) =>
        if from <= previousFrom {
          Unsorted(lines, i);
          return None;
        }
        SortedGrows(ms, Mapping(from, to));
        ms := ms + [Mapping(from, to)];
        previousFrom := from;
    }
    assert lines[..|lines|] == lines;
    r := Some(ms);
  }

  lemma NothingSorted()
    ensures Sorted([])
  {
  }

  lemma SortedGrows(ms: seq<Mapping>, m: Mapping)
    requires Sorted(ms) && m.from > if ms == [] then -1 else ms[|ms| - 1].from
    ensures Sorted(ms + [m])
  {
    forall i | 0 <= i < |ms| ensures ms[i].from < m.from {
      assert ms[i].from <= ms[|ms| - 1].from;
    }
  }

  /** The characters mapped go up from line to line. */
  ghost predicate Ascending(lines: seq<Line>) {
    && (forall i | 0 <= i < |lines| && lines[i].Entry? :: lines[i].from >= 0)
    && (forall i, j | 0 <= i < j < |lines| && lines[i].Entry? && lines[j].Entry? :: lines[i].from < lines[j].from)
  }

  lemma {:induction false} EntriesHave(lines: seq<Line>)
    ensures forall m :: m in Entries(lines) <==> Entry(m.from, m.to) in lines
  {
    if lines != [] {
      var before, l := lines[..|lines| - 1], lines[|lines| - 1];
      EntriesHave(before);
      assert lines == before + [l];
    }
  }

  lemma {:induction false} AscendingIsSorted(lines: seq<Line>)
    ensures Sorted(Entries(lines)) <==> Ascending(lines)
  {
    if lines != [] {
      var before, l := lines[..|lines| - 1], lines[|lines| - 1];
      AscendingIsSorted(before);
      AscendingMore(before, l);
      assert lines == before + [l] && (before + [l])[..|before|] == before;
      if l.Entry? {
        EntriesHave(before);
        SortedMore(Entries(before), Mapping(l.from, l.to));
        MembersBelow(before, l.from);
      } else {
        assert Entries(lines) == Entries(before);
      }
    }
  }

  lemma AscendingMore(before: seq<Line>, l: Line)
    ensures Ascending(before + [l]) <==>
      Ascending(before) && (l.Entry? ==> l.from >= 0 && forall i | 0 <= i < |before| && before[i].Entry? :: before[i].from < l.from)
  {
    var lines := before + [l];
    assert lines[|before|] == l && forall i | 0 <= i < |before| :: lines[i] == before[i];
  }

  lemma SortedMore(ms: seq<Mapping>, m: Mapping)
    ensures Sorted(ms + [m]) <==> Sorted(ms) && m.from >= 0 && forall o | o in ms :: o.from < m.from
  {
    var all := ms + [m];
    assert all[|ms|] == m && forall i | 0 <= i < |ms| :: all[i] == ms[i];
  }

  lemma MembersBelow(before: seq<Line>, bound: int)
    ensures (forall o | o in Entries(before) :: o.from < bound)
       <==> (forall i | 0 <= i < |before| && before[i].Entry? :: before[i].from < bound)
  {
    EntriesHave(before);
    if forall o | o in Entries(before) :: o.from < bound {
      forall i | 0 <= i < |before| && before[i].Entry? ensures before[i].from < bound {
        assert before[i] in before;
        assert Mapping(before[i].from, before[i].to) in Entries(before);
      }
    }
  }

  function Entries(lines: seq<Line>): seq<Mapping> {
    if lines == [] then []
    else
      var l := lines[|lines| - 1];
      Entries(lines[..|lines| - 1]) + if l.Entry? then [Mapping(l.from, l.to)] else []
  }

  lemma {:induction false} EntriesPrefix(lines: seq<Line>, i: nat)
    requires i <= |lines|
    ensures Entries(lines[..i]) <= Entries(lines)
    decreases |lines| - i
  {
    if i < |lines| {
      assert lines[..i + 1][..i] == lines[..i];
      EntriesPrefix(lines, i + 1);
    } else {
      assert lines[..i] == lines;
    }
  }

  lemma Unsorted(lines: seq<Line>, i: nat)
    requires i < |lines| && lines[i].Entry?
    requires var ms := Entries(lines[..i]); lines[i].from <= if ms == [] then -1 else ms[|ms| - 1].from
    ensures !Sorted(Entries(lines))
  {
    var ms := Entries(lines[..i]);
    assert lines[..i + 1][..i] == lines[..i];
    EntriesPrefix(lines, i + 1);
    assert Entries(lines)[|ms|] == Mapping(lines[i].from, lines[i].to);
    if ms != [] {
      assert Entries(lines)[|ms| - 1] == ms[|ms| - 1];
    }
  }

  class Generator {
    var body: seq<Test>

    constructor ()
      ensures body == []
    {
      body := [];
    }

    method DumpBlock(b: seq<Mapping>)
      requires b != [] && (|b| >= 2 ==> Stride(b) > 0)
      modifies this
      ensures body == old(body) + Dump(b)
    {
      if |b| == 1 {
        body := body + [IfEqual(b[0].from, b[0].to)];
        return;
      }
      var first, stride, shift := b[0].from, Stride(b), Shift(b[0]);
      var last := first + stride * (|b| - 1);
      var modulo := first % stride;
      body := body + [IfBelow(first)];
      var pattern := IfUpToModulo(last, stride, modulo, shift);
      if stride == 2 && shift == 1 && modulo == 0 {
        pattern := IfUpToOr1(last);
      } else if stride == 1 {
        pattern := IfUpTo(last, shift);
      }
      body := body + [pattern];
    }

    /** Cut the mappings into blocks and dump them; an empty table is an error. */
    method Generate(ms: seq<Mapping>) returns (ok: bool)
      requires Sorted(ms) && body == []
      modifies this
      ensures ok <==> ms != []
      ensures ok ==> forall c :: FoldChar(body, c) == Folded(ms, c)
    {
      var current: seq<Mapping> := [];
      ghost var done: seq<Mapping> := [];
      for i := 0 to |ms|
        invariant ms[..i] == done + current
        invariant i == 0 <==> current == []
        invariant current != [] ==> IsBlock(current)
        invariant forall c :: Handles(body, done, c)
      {
        var m := ms[i];
        assert ms[..i + 1] == ms[..i] + [m];
        if current == [] {
          current := [m];
          continue;
        }
        if Shift(current[0]) == Shift(m)
           && (|current| == 1 || Stride(current) == m.from - current[|current| - 1].from) {
          BlockGrows(current, m);
          current := current + [m];
          continue;
        }
        NextBlock(body, ms, done, current, i);
        DumpBlock(current);
        done := done + current;
        current := [m];
      }
      assert ms[..|ms|] == ms;
      if current == [] {
        return false;
      }
      NextBlock(body, ms, done, current, |ms|);
      DumpBlock(current);
      forall c ensures FoldChar(body, c) == Folded(ms, c) {
        assert Handles(body, ms, c);
      }
      ok := true;
    }
  }

  lemma LastBlock(ms: seq<Mapping>, done: seq<Mapping>, current: seq<Mapping>, i: nat)
    requires Sorted(ms) && i <= |ms| && ms[..i] == done + current
    ensures Sorted(done + current) && (|current| >= 2 ==> Stride(current) > 0)
  {
    assert Sorted(ms[..i]);
    SplitSorted(done, current);
  }

  /** The character the table maps c to; c itself if it is no key. */
  ghost function Folded(ms: seq<Mapping>, c: int): int {
    if IsKey(ms, c) then
      var k :| 0 <= k < |ms| && ms[k].from == c;
      ms[k].to
    else c
  }

  lemma BlockGrows(b: seq<Mapping>, m: Mapping)
    requires IsBlock(b) && Shift(m) == Shift(b[0])
    requires |b| == 1 || Stride(b) == m.from - b[|b| - 1].from
    ensures IsBlock(b + [m])
  {
  }

  lemma NextBlock(body: seq<Test>, ms: seq<Mapping>, done: seq<Mapping>, current: seq<Mapping>, i: nat)
    requires Sorted(ms) && i <= |ms| && ms[..i] == done + current && IsBlock(current)
    requires forall c :: Handles(body, done, c)
    ensures |current| >= 2 ==> Stride(current) > 0
    ensures forall c :: Handles(body + Dump(current), done + current, c)
  {
    LastBlock(ms, done, current, i);
    forall c ensures Handles(body + Dump(current), done + current, c) {
      DumpHandles(body, done, current, c);
    }
  }
}
