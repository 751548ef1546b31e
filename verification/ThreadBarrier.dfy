/** A barrier of a counter, a target, a mutex and a condition variable. Critical sections are atomic. */
module ThreadBarriers {

  /** The barrier's fields, and its condition variable: who waits on it and who has been woken
      by a broadcast but has not run on yet. */
  datatype Barrier = Barrier(n: nat, waitFor: nat, waiting: set<int>, woken: set<int>) {
    /** A release is triggered at the target, so the counter never passes it. */
    predicate Ok() { waitFor == 0 || n < waitFor }
  }

  function Unblock(b: Barrier): Barrier { Barrier(0, 0, {}, b.woken + b.waiting) }

  /** Does the thread that enters complete the count? */
  predicate Completes(b: Barrier) { b.waitFor > 0 && b.n + 1 == b.waitFor }

  function AfterBlock(b: Barrier, t: int): Barrier {
    if Completes(b) then Unblock(b) else b.(n := b.n + 1, waiting := b.waiting + {t})
  }

  function AfterRelease(b: Barrier, t: int, num: nat): Barrier {
    if b.n >= num then Unblock(b) else b.(waitFor := num, waiting := b.waiting + {t})
  }

  class WaitForThreads {
    var n: nat
    var waitFor: nat
    var waiting: set<int>
    var woken: set<int>

    function S(): Barrier
      reads this
    {
      Barrier(n, waitFor, waiting, woken)
    }

    constructor ()
      ensures S() == Barrier(0, 0, {}, {})
    {
      n, waitFor, waiting, woken := 0, 0, {}, {};
    }

    /** Enter the barrier: release everyone, or wait. */
    method Block(t: int) returns (waits: bool)
      requires S().Ok()
      modifies this
      ensures S() == AfterBlock(old(S()), t) && S().Ok() && (waits <==> !Completes(old(S())))
    {
      n := n + 1;
      assert waitFor == 0 || n <= waitFor;
      if waitFor > 0 && n == waitFor {
        UnblockThreads();
        waits := false;
      } else {
        waiting, waits := waiting + {t}, true;
      }
    }

    /** Release the threads if enough of them are blocked already; otherwise set the target. */
    method ReleaseThreads(t: int, num: nat) returns (waits: bool)
      requires S().Ok()
      modifies this
      ensures S() == AfterRelease(old(S()), t, num) && S().Ok() && (waits <==> old(n) < num)
    {
      if n >= num {
        UnblockThreads();
        waits := false;
      } else {
        waitFor, waiting, waits := num, waiting + {t}, true;
      }
    }

    /** Reset the counters, so that later arrivals block again, and wake everyone. */
    method UnblockThreads()
      modifies this
      ensures S() == Unblock(old(S()))
    {
      n := 0;
      waitFor := 0;
      waiting, woken := {}, woken + waiting;
    }

    /** A woken thread gets the mutex back and returns. */
    method Resume(t: int)
      requires t in woken
      modifies this
      ensures S() == old(S()).(woken := old(woken) - {t})
    {
      woken := woken - {t};
    }
  }

  // ----- Runs -----

  /** Workers 0..N-1 and the releasing thread N. */
  datatype System = System(b: Barrier, outside: set<int>, returned: set<int>)

  datatype Event = Enter(t: int) | Resume(t: int)

  function Workers(workers: nat): (r: set<int>)
    ensures |r| == workers && forall t :: t in r <==> 0 <= t < workers
  {
    if workers == 0 then {} else Workers(workers - 1) + {workers - 1}
  }

  function Threads(workers: nat): set<int> { Workers(workers) + {workers} }

  function Start(workers: nat): System { System(Barrier(0, 0, {}, {}), Threads(workers), {}) }

  predicate Enabled(s: System, e: Event) {
    match e
    case Enter(t) => t in s.outside
    case Resume(t) => t in s.b.woken
  }

  function Apply(workers: nat, num: nat, s: System, e: Event): System
    requires Enabled(s, e)
  {
    match e
    case Enter(t) =>
      var b := if t == workers then AfterRelease(s.b, t, num) else AfterBlock(s.b, t);
      System(b, s.outside - {t}, if t in b.waiting then s.returned else s.returned + {t})
    case Resume(t) =>
      System(s.b.(woken := s.b.woken - {t}), s.outside, s.returned + {t})
  }

  /** The events can happen one after the other, in this order. */
  predicate IsRun(workers: nat, num: nat, s: System, es: seq<Event>)
    decreases |es|
  {
    es == [] || (Enabled(s, es[0]) && IsRun(workers, num, Apply(workers, num, s, es[0]), es[1..]))
  }

  function After(workers: nat, num: nat, s: System, es: seq<Event>): System
    requires IsRun(workers, num, s, es)
    decreases |es|
  {
    if es == [] then s else After(workers, num, Apply(workers, num, s, es[0]), es[1..])
  }

  // ----- Safety -----

  /** The thread is in exactly one place. */
  ghost predicate Placed(workers: nat, s: System, t: int) {
    var o, w, k, r := t in s.outside, t in s.b.waiting, t in s.b.woken, t in s.returned;
    if t in Threads(workers) then (o || w || k || r) && !(o && w) && !(o && k) && !(o && r) && !(w && k) && !(w && r) && !(k && r)
    else !o && !w && !k && !r
  }

  ghost predicate AllPlaced(workers: nat, s: System) {
    forall t :: Placed(workers, s, t)
  }

  ghost predicate Released(s: System) { s.b.woken != {} || s.returned != {} }

  /** Before the release the counter says how many workers are still to come; afterwards nobody
      is left to arrive or to wake. */
  ghost predicate Counted(workers: nat, s: System) {
    if !Released(s) then
      && s.b.n + |s.outside - {workers}| == workers
      && s.b.waitFor == (if workers in s.outside then 0 else workers)
      && (s.b.n == workers ==> workers in s.outside)
    else
      s.b.n == 0 && s.b.waitFor == 0 && s.outside == {} && s.b.waiting == {}
  }

  ghost predicate Inv(workers: nat, s: System) { AllPlaced(workers, s) && Counted(workers, s) }

  lemma StepKeepsPlaces(workers: nat, num: nat, s: System, e: Event)
    requires AllPlaced(workers, s) && Enabled(s, e)
    ensures AllPlaced(workers, Apply(workers, num, s, e))
  {
    hide Threads;
    assert Placed(workers, s, e.t);
    forall t ensures Placed(workers, Apply(workers, num, s, e), t) {
      assert Placed(workers, s, t);
    }
  }

  lemma OneLess(a: set<int>, t: int)
    requires t in a
    ensures |a - {t}| == |a| - 1
  {
    assert a == a - {t} + {t};
  }

  lemma NoneLeft(a: set<int>)
    ensures |a| == 0 <==> a == {}
  {
  }

  lemma ReleaserKeepsCount(workers: nat, s: System)
    requires workers >= 1 && Counted(workers, s) && workers in s.outside
    ensures Counted(workers, Apply(workers, workers, s, Enter(workers))) && s.b.Ok()
  {
    var s' := Apply(workers, workers, s, Enter(workers));
    NoneLeft(s'.outside);
    assert s'.outside - {workers} == s'.outside == s.outside - {workers};
    if s.b.n >= workers {
      assert workers in s'.returned;
    } else {
      assert workers in s'.b.waiting;
    }
  }

  lemma WorkerKeepsCount(workers: nat, s: System, t: int)
    requires workers >= 1 && Counted(workers, s) && t in s.outside && t != workers && t !in s.returned
    ensures Counted(workers, Apply(workers, workers, s, Enter(t))) && s.b.Ok()
  {
    var s' := Apply(workers, workers, s, Enter(t));
    assert s'.outside - {workers} == s.outside - {workers} - {t};
    OneLess(s.outside - {workers}, t);
    NoneLeft(s'.outside - {workers});
    if Completes(s.b) {
      assert t in s'.returned;
      assert s'.outside == {};
    } else {
      assert t in s'.b.waiting;
    }
  }

  lemma StepKeepsCount(workers: nat, s: System, e: Event)
    requires workers >= 1 && Inv(workers, s) && Enabled(s, e)
    ensures Counted(workers, Apply(workers, workers, s, e)) && (e.Enter? ==> s.b.Ok())
  {
    assert Placed(workers, s, e.t);
    if e == Enter(workers) {
      ReleaserKeepsCount(workers, s);
    } else if e.Enter? {
      WorkerKeepsCount(workers, s, e.t);
    } else {
      assert e.t in Apply(workers, workers, s, e).returned;
    }
  }

  lemma StepKeepsInv(workers: nat, s: System, e: Event)
    requires workers >= 1 && Inv(workers, s) && Enabled(s, e)
    ensures Inv(workers, Apply(workers, workers, s, e)) && (e.Enter? ==> s.b.Ok())
  {
    StepKeepsPlaces(workers, workers, s, e);
    StepKeepsCount(workers, s, e);
  }

  lemma {:induction false} RunKeepsInv(workers: nat, s: System, es: seq<Event>)
    requires workers >= 1 && Inv(workers, s) && IsRun(workers, workers, s, es)
    ensures Inv(workers, After(workers, workers, s, es))
    decreases |es|
  {
    if es != [] {
      StepKeepsInv(workers, s, es[0]);
      RunKeepsInv(workers, Apply(workers, workers, s, es[0]), es[1..]);
    }
  }

  lemma StartsWithInv(workers: nat)
    ensures Inv(workers, Start(workers))
  {
    assert Threads(workers) - {workers} == Workers(workers);
  }

  /** No thread gets past the barrier before all workers and the releasing thread are there. */
  lemma NoneReturnsEarly(workers: nat, es: seq<Event>)
    requires workers >= 1 && IsRun(workers, workers, Start(workers), es)
    ensures var s := After(workers, workers, Start(workers), es);
      s.returned + s.b.woken != {} ==> s.outside == {} && s.b.waiting == {}
  {
    StartsWithInv(workers);
    RunKeepsInv(workers, Start(workers), es);
  }

  // ----- Progress -----

  function Measure(s: System): nat { 2 * |s.outside| + |s.b.waiting| + |s.b.woken| }

  lemma StepDescends(workers: nat, num: nat, s: System, e: Event)
    requires Enabled(s, e) && AllPlaced(workers, s)
    ensures Measure(Apply(workers, num, s, e)) < Measure(s)
  {
    if e.Enter? {
      OneLess(s.outside, e.t);
      assert |s.b.woken + s.b.waiting| <= |s.b.woken| + |s.b.waiting|;
      assert |s.b.waiting + {e.t}| <= |s.b.waiting| + 1;
    } else {
      OneLess(s.b.woken, e.t);
    }
  }

  /** Every run is finite: at most two events per thread. */
  lemma {:induction false} RunsEnd(workers: nat, s: System, es: seq<Event>)
    requires workers >= 1 && Inv(workers, s) && IsRun(workers, workers, s, es)
    ensures |es| <= Measure(s)
    decreases |es|
  {
    if es != [] {
      StepKeepsInv(workers, s, es[0]);
      StepDescends(workers, workers, s, es[0]);
      RunsEnd(workers, Apply(workers, workers, s, es[0]), es[1..]);
    }
  }

  ghost predicate Stuck(s: System) { forall e :: !Enabled(s, e) }

  /** A run that cannot go on has every thread returned, in whatever order they arrived. */
  lemma StuckMeansReturned(workers: nat, es: seq<Event>)
    requires workers >= 1 && IsRun(workers, workers, Start(workers), es)
    requires Stuck(After(workers, workers, Start(workers), es))
    ensures After(workers, workers, Start(workers), es).returned == Threads(workers)
  {
    StartsWithInv(workers);
    RunKeepsInv(workers, Start(workers), es);
    var s := After(workers, workers, Start(workers), es);
    forall t ensures t !in s.outside && t !in s.b.woken {
      assert !Enabled(s, Enter(t)) && !Enabled(s, Resume(t));
    }
    AllWaiting(workers, s);
  }

  /** With everyone at the barrier, someone has been let go. */
  lemma AllWaiting(workers: nat, s: System)
    requires workers >= 1 && Inv(workers, s) && s.outside == {} && s.b.woken == {}
    ensures s.returned == Threads(workers)
  {
    hide Workers;
    assert s.outside - {workers} == {};
    assert Placed(workers, s, workers);
    forall t ensures t in s.returned <==> t in Threads(workers) {
      assert Placed(workers, s, t);
    }
  }

  // ----- The right count -----

  lemma {:induction false} RunConcat(workers: nat, num: nat, s: System, es: seq<Event>, fs: seq<Event>)
    requires IsRun(workers, num, s, es) && IsRun(workers, num, After(workers, num, s, es), fs)
    ensures IsRun(workers, num, s, es + fs)
    ensures After(workers, num, s, es + fs) == After(workers, num, After(workers, num, s, es), fs)
    decreases |es|
  {
    if es == [] {
      assert es + fs == fs;
    } else {
      RunConcat(workers, num, Apply(workers, num, s, es[0]), es[1..], fs);
      assert (es + fs)[1..] == es[1..] + fs;
    }
  }

  /** Whatever number is asked for, the counter never passes the target. */
  lemma {:induction false} AssertionNeverFails(workers: nat, num: nat, s: System, es: seq<Event>)
    requires s.b.Ok() && IsRun(workers, num, s, es)
    ensures After(workers, num, s, es).b.Ok()
    decreases |es|
  {
    if es != [] {
      AssertionNeverFails(workers, num, Apply(workers, num, s, es[0]), es[1..]);
    }
  }

  /** A thread waits and no release can come any more. */
  ghost predicate Doomed(workers: nat, num: nat, s: System) {
    && AllPlaced(workers, s) && workers !in s.outside && s.b.waiting != {}
    && (s.b.waitFor == 0 || (s.b.waitFor == num && s.b.n + |s.outside| < num))
  }

  lemma DoomedStays(workers: nat, num: nat, s: System, e: Event)
    requires Doomed(workers, num, s) && Enabled(s, e)
    ensures Doomed(workers, num, Apply(workers, num, s, e))
  {
    hide AllPlaced;
    StepKeepsPlaces(workers, num, s, e);
    if e.Enter? {
      OneLess(s.outside, e.t);
      assert e.t in s.b.waiting + {e.t};
    }
  }

  /** Every run can be carried on until nothing more can happen. */
  lemma RunOn(workers: nat, num: nat, s: System) returns (es: seq<Event>)
    requires AllPlaced(workers, s)
    ensures IsRun(workers, num, s, es) && Stuck(After(workers, num, s, es))
    ensures Doomed(workers, num, s) ==> Doomed(workers, num, After(workers, num, s, es))
    decreases Measure(s)
  {
    es := [];
    if e :| Enabled(s, e) {
      StepKeepsPlaces(workers, num, s, e);
      StepDescends(workers, num, s, e);
      if Doomed(workers, num, s) {
        DoomedStays(workers, num, s, e);
      }
      var rest := RunOn(workers, num, Apply(workers, num, s, e));
      es := [e] + rest;
      assert es[1..] == rest;
    }
  }

  lemma OneMore(workers: nat, num: nat, s: System, es: seq<Event>, e: Event)
    requires IsRun(workers, num, s, es) && Enabled(After(workers, num, s, es), e)
    ensures IsRun(workers, num, s, es + [e])
    ensures After(workers, num, s, es + [e]) == Apply(workers, num, After(workers, num, s, es), e)
  {
    assert [e][1..] == [];
    RunConcat(workers, num, s, es, [e]);
  }

  ghost predicate FirstIn(workers: nat, k: nat, s: System) {
    s.b.n == k && s.b.waitFor == 0 && forall t :: t in s.outside <==> k <= t <= workers
  }

  /** The first k workers arrive before anyone else. */
  lemma {:induction false} FirstArrive(workers: nat, num: nat, k: nat) returns (es: seq<Event>)
    requires k <= workers
    ensures IsRun(workers, num, Start(workers), es)
    ensures FirstIn(workers, k, After(workers, num, Start(workers), es))
  {
    hide IsRun, After, Workers, FirstIn, Apply, Enabled, Start;
    es := [];
    if k == 0 {
      NobodyIn(workers, num);
    } else {
      es := FirstArrive(workers, num, k - 1);
      NextIn(workers, num, k, After(workers, num, Start(workers), es));
      OneMore(workers, num, Start(workers), es, Enter(k - 1));
      es := es + [Enter(k - 1)];
    }
  }

  lemma NobodyIn(workers: nat, num: nat)
    ensures IsRun(workers, num, Start(workers), [])
    ensures FirstIn(workers, 0, After(workers, num, Start(workers), []))
  {
  }

  lemma NextIn(workers: nat, num: nat, k: nat, s: System)
    requires 0 < k <= workers && FirstIn(workers, k - 1, s)
    ensures Enabled(s, Enter(k - 1)) && FirstIn(workers, k, Apply(workers, num, s, Enter(k - 1)))
  {
  }

  lemma {:induction false} RunKeepsPlaces(workers: nat, num: nat, s: System, es: seq<Event>)
    requires AllPlaced(workers, s) && IsRun(workers, num, s, es)
    ensures AllPlaced(workers, After(workers, num, s, es))
    decreases |es|
  {
    if es != [] {
      StepKeepsPlaces(workers, num, s, es[0]);
      RunKeepsPlaces(workers, num, Apply(workers, num, s, es[0]), es[1..]);
    }
  }

  lemma OpensEarly(workers: nat, num: nat, s: System)
    requires num < workers && FirstIn(workers, num, s)
    ensures Enabled(s, Enter(workers))
    ensures var s1 := Apply(workers, num, s, Enter(workers));
      && Enabled(s1, Enter(num)) && s1.b.waitFor == 0
      && var s2 := Apply(workers, num, s1, Enter(num));
         workers !in s2.outside && num in s2.b.waiting && s2.b.waitFor == 0
  {
  }

  lemma NeverOpens(workers: nat, num: nat, s: System)
    requires num > workers && FirstIn(workers, 0, s)
    ensures Enabled(s, Enter(workers))
    ensures var s1 := Apply(workers, num, s, Enter(workers));
      workers !in s1.outside && workers in s1.b.waiting && s1.b.waitFor == num && s1.b.n + |s1.outside| < num
  {
    WorkersCount(workers);
    assert s.outside - {workers} == Workers(workers);
  }

  /** Asked for fewer threads than there are, the barrier can open before the last one comes;
      asked for more, it never opens. */
  lemma DoomedRun(workers: nat, num: nat) returns (es: seq<Event>)
    requires workers >= 1 && num != workers
    ensures IsRun(workers, num, Start(workers), es) && Doomed(workers, num, After(workers, num, Start(workers), es))
  {
    hide IsRun, After, Workers, FirstIn, Apply, AllPlaced, Enabled;
    es := FirstArrive(workers, num, if num < workers then num else 0);
    var s := After(workers, num, Start(workers), es);
    if num < workers {
      OpensEarly(workers, num, s);
    } else {
      NeverOpens(workers, num, s);
    }
    OneMore(workers, num, Start(workers), es, Enter(workers));
    es := es + [Enter(workers)];
    if num < workers {
      OneMore(workers, num, Start(workers), es, Enter(num));
      es := es + [Enter(num)];
    }
    StartsWithInv(workers);
    RunKeepsPlaces(workers, num, Start(workers), es);
  }

  lemma WorkersCount(workers: nat)
    ensures |Workers(workers)| == workers && forall t :: t in Workers(workers) <==> 0 <= t < workers
  {
  }

  /** Every run that cannot go on has let everyone through. */
  ghost predicate AlwaysCompletes(workers: nat, num: nat) {
    forall es | IsRun(workers, num, Start(workers), es) && Stuck(After(workers, num, Start(workers), es)) ::
      After(workers, num, Start(workers), es).returned == Threads(workers)
  }

  /** Releasing works in every order of arrival exactly when the number asked for is the number
      of workers. */
  lemma RightCountOnly(workers: nat, num: nat)
    requires workers >= 1
    ensures AlwaysCompletes(workers, num) <==> num == workers
  {
    if num == workers {
      forall es | IsRun(workers, num, Start(workers), es) && Stuck(After(workers, num, Start(workers), es))
        ensures After(workers, num, Start(workers), es).returned == Threads(workers)
      {
        StuckMeansReturned(workers, es);
      }
    } else {
      var es := DoomedRun(workers, num);
      var s := After(workers, num, Start(workers), es);
      var rest := RunOn(workers, num, s);
      RunConcat(workers, num, Start(workers), es, rest);
      var last := After(workers, num, Start(workers), es + rest);
      var t :| t in last.b.waiting;
      assert Placed(workers, last, t);
    }
  }

  // ----- Spurious wakeups -----

  /** The wait has no loop around it: if the condition variable may wake a thread for no reason,
      a single worker gets through before anyone else has come. */
  lemma SpuriousWakeupBreaksBarrier(workers: nat)
    requires workers >= 1
    ensures var s := Apply(workers, workers, Start(workers), Enter(0));
      var woken := s.(b := s.b.(waiting := s.b.waiting - {0}, woken := s.b.woken + {0}));
      && 0 in s.b.waiting && Enabled(woken, Resume(0))
      && var last := Apply(workers, workers, woken, Resume(0));
         0 in last.returned && workers in last.outside
  {
    assert 0 in Start(workers).outside;
  }
}
