/** Bounded overtaking under aging: a waiting query reaches priority 0 after as many ticks as its
    priority, and from then on only unfinished older queries can be dispatched before it. */
module SchedulerOvertaking {
  import opened Common
  import opened ReadyQueue
  import opened Scheduler
  import opened SchedulerTokens
  import opened SchedulerPlacement
  import opened SchedulerOrder

  /** A step of an orderly run: no failure, arriving priorities are not negative, and a worker reports
      an eviction only in answer to a request that names the query it executes. */
  predicate FairStep(s: State, p: Step)
    requires InRange(s) && Enabled(s, p)
  {
    && SmoothStep(p)
    && (p.QueryArrives? ==> p.priority >= 0)
    && (p.ReportEvicted? ==>
          var w := s.threads[p.t].role.worker;
          (w, s.workers[w].running.value) in s.requests)
  }

  ghost predicate FairRun(s: State, run: seq<Step>)
    requires InRange(s) && Legal(s, run)
    decreases |run|
  {
    run == [] || (FairStep(s, run[0]) && FairRun(Apply(s, run[0]), run[1..]))
  }

  ghost predicate NonNegative(s: State) {
    forall q: Qid :: Priority(s.prio, q) >= 0
  }

  // The query a request names, on the worker it was sent to, once that worker has received it.
  predicate Addressed(s: State, w: nat, q: Qid) {
    (w, q) in s.requests && w < |s.workers| && s.workers[w].running == Some(q) && !(s.dispatcher.Sending? && s.dispatcher.worker == w)
  }

  /** A request that can be answered names a running query of priority above 0. */
  ghost predicate RequestsJust(s: State) {
    forall w, q :: Addressed(s, w, q) ==> Priority(s.prio, q) > 0
  }

  ghost predicate Fair(s: State)
    requires InRange(s)
  {
    s.priorities && Smooth(s) && NonNegative(s) && RequestsJust(s)
  }

  // What a step does to priorities.
  lemma PrioritiesAfter(s: State, p: Step, q: Qid)
    requires InRange(s) && Enabled(s, p)
    ensures !p.Tick? && q < |s.prio| ==> Priority(Apply(s, p).prio, q) == Priority(s.prio, q)
    ensures !p.Tick? && !p.QueryArrives? ==> Apply(s, p).prio == s.prio
    ensures p.Tick? ==> Apply(s, p).prio == Aged(s.prio, s.ready)
    ensures p.QueryArrives? ==> Apply(s, p).prio == s.prio + [p.priority]
  {
    hide Apply, InRange, Enabled, Aged;
    QueueAfter(s, p);
  }

  lemma NonNegativeStep(s: State, p: Step)
    requires InRange(s) && Enabled(s, p) && FairStep(s, p) && NonNegative(s)
    ensures NonNegative(Apply(s, p))
  {
    forall q: Qid ensures Priority(Apply(s, p).prio, q) >= 0 {
      hide Apply, Aged;
      PrioritiesAfter(s, p, q);
      AgedBounds(s.prio, s.ready, q);
      assert Priority(s.prio, q) >= 0;
    }
  }

  lemma RunningNotWaiting(s: State, w: nat, q: Qid)
    requires Conserved(s) && w < |s.workers| && s.workers[w].running == Some(q)
    ensures q < |s.prio| && q !in s.ready
  {
    assert Places(s, q) <= 1;
    CountPositive(s.workers, w, Executes(q));
    OnePlaceOnly(s, q);
  }

  lemma AddressedServing(s: State, p: Step, w: nat, q: Qid)
    requires InRange(s) && Enabled(s, p) && Serves(p) && SmoothStep(p) && Addressed(Apply(s, p), w, q)
    ensures w < |s.workers| && Addressed(s, w, q)
  {
    StepInRange(s, p);
    hide InRange;
  }

  lemma AddressedDispatching(s: State, p: Step, w: nat, q: Qid)
    requires InRange(s) && Enabled(s, p) && Dispatches(p) && SmoothStep(p) && Addressed(Apply(s, p), w, q)
    ensures w < |s.workers| && Addressed(s, w, q)
  {
    StepInRange(s, p);
    hide InRange;
  }

  lemma AddressedAdvancing(s: State, p: Step, w: nat, q: Qid)
    requires InRange(s) && Enabled(s, p) && !Serves(p) && !Dispatches(p) && Addressed(Apply(s, p), w, q)
    ensures w < |s.workers| && s.workers[w].running == Some(q)
    ensures Addressed(s, w, q) || (p.Compare? && Priority(s.prio, s.threads[p.t].pc.best) < Priority(s.prio, q))
  {
    StepInRange(s, p);
    hide InRange, Aged, Sort, Worst, Priority;
  }

  // A request that is answerable after a step was so before, unless the step sent it.
  lemma AddressedBefore(s: State, p: Step, w: nat, q: Qid)
    requires InRange(s) && Enabled(s, p) && SmoothStep(p) && Addressed(Apply(s, p), w, q)
    ensures w < |s.workers| && s.workers[w].running == Some(q)
    ensures Addressed(s, w, q) || (p.Compare? && Priority(s.prio, s.threads[p.t].pc.best) < Priority(s.prio, q))
  {
    if Serves(p) {
      AddressedServing(s, p, w, q);
    } else if Dispatches(p) {
      AddressedDispatching(s, p, w, q);
    } else {
      AddressedAdvancing(s, p, w, q);
    }
    hide Apply, InRange, Enabled;
  }

  lemma RequestsStep(s: State, p: Step)
    requires InRange(s) && Enabled(s, p) && FairStep(s, p) && Fair(s)
    ensures RequestsJust(Apply(s, p))
  {
    forall w, q | Addressed(Apply(s, p), w, q) ensures Priority(Apply(s, p).prio, q) > 0 {
      AddressedBefore(s, p, w, q);
      RunningNotWaiting(s, w, q);
      PrioritiesAfter(s, p, q);
      AgedBounds(s.prio, s.ready, q);
      assert forall x: Qid :: Priority(s.prio, x) >= 0;
      hide Apply, Aged, Smooth;
    }
  }

  lemma FairAfter(s: State, p: Step)
    requires InRange(s) && Enabled(s, p) && FairStep(s, p) && Fair(s)
    ensures Fair(Apply(s, p))
  {
    assert Apply(s, p).priorities == s.priorities;
    hide Apply, Smooth;
    SmoothAfter(s, p);
    NonNegativeStep(s, p);
    RequestsStep(s, p);
  }

  lemma InitiallyFair(s: State)
    requires Initial(s) && s.priorities
    ensures InRange(s) && Fair(s)
  {
    InitiallySmooth(s);
  }

  lemma {:induction false} FairlyReached(s: State, run: seq<Step>)
    requires InRange(s) && Fair(s) && Legal(s, run) && FairRun(s, run)
    ensures Fair(After(s, run))
    decreases |run|
  {
    if run != [] {
      FairAfter(s, run[0]);
      hide Fair, Apply, FairStep;
      FairlyReached(Apply(s, run[0]), run[1..]);
    }
  }

  /** Query t waits in the ready queue through the whole run. */
  ghost predicate Waits(s: State, run: seq<Step>, t: Qid)
    requires InRange(s) && Legal(s, run)
    decreases |run|
  {
    t in s.ready && (run == [] || Waits(Apply(s, run[0]), run[1..], t))
  }

  function Ticks(run: seq<Step>): nat {
    if run == [] then 0 else (if run[0].Tick? then 1 else 0) + Ticks(run[1..])
  }

  function Max0(p: int): int { if p > 0 then p else 0 }

  lemma WaitingStep(s: State, p: Step, t: Qid)
    requires InRange(s) && Enabled(s, p) && Smooth(s) && t in s.ready
    ensures Priority(Apply(s, p).prio, t) == if p.Tick? then Decrement(Priority(s.prio, t)) else Priority(s.prio, t)
  {
    ReadyKnown(s);
    OnceEach(s);
    AgedAt(s.prio, s.ready, t);
    PrioritiesAfter(s, p, t);
    hide Apply, Smooth, Aged;
  }

  // One step of a fair run through which t waits.
  lemma WaitUnfold(s: State, run: seq<Step>, t: Qid)
    requires InRange(s) && Legal(s, run) && FairRun(s, run) && Waits(s, run, t)
    ensures t in s.ready && (run == [] ==> After(s, run) == s)
    ensures run != [] ==>
              && Enabled(s, run[0]) && FairStep(s, run[0]) && Legal(Apply(s, run[0]), run[1..])
              && FairRun(Apply(s, run[0]), run[1..]) && Waits(Apply(s, run[0]), run[1..], t)
              && After(s, run) == After(Apply(s, run[0]), run[1..])
  {
    hide Apply, Enabled, InRange, FairStep;
  }

  lemma FairParts(s: State, t: Qid)
    requires InRange(s) && Fair(s)
    ensures s.priorities && Smooth(s) && Balanced(s) && Conserved(s) && Canonical(s) && Priority(s.prio, t) >= 0
  {
  }

  /** A waiting query of priority p has priority max(0, p - k) after k ticks, whatever else happens. */
  lemma {:induction false} AgedWhileWaiting(s: State, run: seq<Step>, t: Qid)
    requires InRange(s) && Fair(s) && Legal(s, run) && FairRun(s, run) && Waits(s, run, t)
    ensures Priority(After(s, run).prio, t) == Max0(Priority(s.prio, t) - Ticks(run))
    decreases |run|
  {
    hide Fair, Apply, FairStep, Smooth, InRange, Enabled, Legal, FairRun, Waits, After;
    WaitUnfold(s, run, t);
    FairParts(s, t);
    if run != [] {
      FairAfter(s, run[0]);
      WaitingStep(s, run[0], t);
      AgedWhileWaiting(Apply(s, run[0]), run[1..], t);
    }
  }

  // The query a thread carries back to the ready queue.
  function Returned(pc: Pc): Option<Qid> {
    match pc
    case Registering(Requeue(q)) => Some(q)
    case OwesWorker(Requeue(q)) => Some(q)
    case Inserting(q) => Some(q)
    case _ => None
  }

  ghost predicate OnItsWay(s: State, q: Qid) {
    exists t :: 0 <= t < |s.threads| && Returned(s.threads[t].pc) == Some(q)
  }

  ghost predicate Running(s: State, q: Qid) {
    exists w :: 0 <= w < |s.workers| && s.workers[w].running == Some(q)
  }

  /** Query q may still be dispatched: it waits, is on its way to the queue, or is dispatched with a
      priority above 0 and so may be evicted. */
  ghost predicate Pending(s: State, q: Qid) {
    q in s.ready || OnItsWay(s, q) || (Priority(s.prio, q) > 0 && (InHand(s.dispatcher) == Some(q) || Running(s, q)))
  }

  ghost function Ahead(s: State, t: Qid): set<Qid> {
    set q: Qid | 0 <= q < t && Pending(s, q)
  }

  lemma InRearranged(s: State, prio: seq<int>, ready: seq<Qid>, q: Qid)
    ensures q in Rearranged(s, prio, ready) <==> q in ready
    ensures q in Sort(prio, ready) <==> q in ready
  {
    InSort(prio, ready, q);
  }

  lemma ReadyBefore(s: State, p: Step, q: Qid)
    requires InRange(s) && Enabled(s, p) && !s.dispatcher.Returning? && q in Apply(s, p).ready
    ensures q in s.ready || OnItsWay(s, q)
  {
    hide Apply, InRange, Enabled, Aged, Sort, Rearranged, OnItsWay;
    QueueAfter(s, p);
    StepInRange(s, p);
    if p.Insert? {
      InRearranged(s, s.prio, s.ready + [s.threads[p.t].pc.query], q);
      if q == s.threads[p.t].pc.query {
        CarriedHome(s, p.t, q);
      }
    }
    if p.Tick? {
      InRearranged(s, Aged(s.prio, s.ready), s.ready, q);
    }
  }

  lemma CarriedHome(s: State, t: nat, q: Qid)
    requires t < |s.threads| && Returned(s.threads[t].pc) == Some(q)
    ensures OnItsWay(s, q)
  {
  }

  lemma ReturnedBefore(s: State, p: Step, q: Qid)
    requires InRange(s) && Enabled(s, p) && Actor(p).Some?
    requires Returned(Apply(s, p).threads[Actor(p).value].pc) == Some(q)
    ensures Returned(s.threads[Actor(p).value].pc) == Some(q) ||
            (p.ReportEvicted? && s.workers[s.threads[p.t].role.worker].running == Some(q))
  {
    StepInRange(s, p);
    hide InRange;
    hide Aged, Sort, Rearranged, FirstFree, Worst;
  }

  lemma Started(s: State, p: Step)
    requires InRange(s) && Enabled(s, p) && (p.QueryArrives? || p.WorkerArrives?)
    ensures |Apply(s, p).threads| == |s.threads| + 1
    ensures Returned(Apply(s, p).threads[|s.threads|].pc) == if p.QueryArrives? then Some(|s.prio|) else None
  {
    hide InRange;
  }

  // A query that some thread other than the acting one carries after a step was carried by it before.
  lemma CarriedElsewhere(s: State, p: Step, q: Qid, u: nat)
    requires InRange(s) && Enabled(s, p) && q < |s.prio| && Actor(p) != Some(u)
    requires u < |Apply(s, p).threads| && Returned(Apply(s, p).threads[u].pc) == Some(q)
    ensures OnItsWay(s, q)
  {
    hide Apply, Enabled, InRange;
    ThreadsAfter(s, p);
    if u == |s.threads| {
      Started(s, p);
    }
    assert Returned(s.threads[u].pc) == Some(q);
  }

  lemma OnItsWayBefore(s: State, p: Step, q: Qid)
    requires InRange(s) && Enabled(s, p) && q < |s.prio| && OnItsWay(Apply(s, p), q)
    ensures OnItsWay(s, q) || (p.ReportEvicted? && s.workers[s.threads[p.t].role.worker].running == Some(q))
  {
    hide Apply, Enabled, InRange, Returned;
    var u :| 0 <= u < |Apply(s, p).threads| && Returned(Apply(s, p).threads[u].pc) == Some(q);
    if Actor(p) == Some(u) {
      ReturnedBefore(s, p, q);
      StepInRange(s, p);
    } else {
      CarriedElsewhere(s, p, q, u);
    }
  }

  lemma DispatchedBefore(s: State, p: Step, q: Qid)
    requires InRange(s) && Enabled(s, p) && SmoothStep(p)
    requires InHand(Apply(s, p).dispatcher) == Some(q) || Running(Apply(s, p), q)
    ensures q in s.ready || InHand(s.dispatcher) == Some(q) || Running(s, q)
  {
    if Running(Apply(s, p), q) {
      RunningBefore(s, p, q);
    }
    hide Aged, Sort, Rearranged, FirstFree, Worst, Running;
  }

  lemma RunningBefore(s: State, p: Step, q: Qid)
    requires InRange(s) && Enabled(s, p) && SmoothStep(p) && Running(Apply(s, p), q)
    ensures InHand(s.dispatcher) == Some(q) || Running(s, q)
  {
    StepInRange(s, p);
    hide InRange;
    var r := Apply(s, p);
    var w :| 0 <= w < |r.workers| && r.workers[w].running == Some(q);
    WorkersAfter(s, p);
    assert w < |s.workers| && s.workers[w].running == Some(q) ==> Running(s, q);
    hide Aged, Sort, Rearranged, FirstFree, Worst, Running;
  }

  // Nothing becomes pending that was not pending.
  lemma PendingStep(s: State, p: Step, q: Qid)
    requires InRange(s) && Enabled(s, p) && FairStep(s, p) && Fair(s) && q < |s.prio| && Pending(Apply(s, p), q)
    ensures Pending(s, q)
  {
    var r := Apply(s, p);
    PrioritiesAfter(s, p, q);
    AgedBounds(s.prio, s.ready, q);
    assert Priority(r.prio, q) <= Priority(s.prio, q) && !s.dispatcher.Returning?;
    if q in r.ready {
      ReadyBefore(s, p, q);
    } else if OnItsWay(r, q) {
      OnItsWayBefore(s, p, q);
      if !OnItsWay(s, q) {
        EvictedWasAbove(s, p, q);
      }
    } else {
      DispatchedBefore(s, p, q);
    }
    hide Apply, Fair, OnItsWay, Running, Aged;
  }

  // Only a query of priority above 0 is ever evicted.
  lemma EvictedWasAbove(s: State, p: Step, q: Qid)
    requires InRange(s) && Enabled(s, p) && FairStep(s, p) && Fair(s) && p.ReportEvicted?
    requires s.workers[s.threads[p.t].role.worker].running == Some(q)
    ensures Priority(s.prio, q) > 0 && Running(s, q)
  {
    assert Addressed(s, s.threads[p.t].role.worker, q);
    hide Smooth;
  }

  // Taking the head while t waits with priority 0 takes an older query for good.
  lemma TakeStep(s: State, t: Qid)
    requires InRange(s) && Enabled(s, Take) && Fair(s)
    requires t in s.ready && Priority(s.prio, t) == 0 && t in Apply(s, Take).ready
    ensures s.ready[0] < t && Pending(s, s.ready[0]) && !Pending(Apply(s, Take), s.ready[0])
  {
    var r := Apply(s, Take);
    var h := s.ready[0];
    FairParts(s, h);
    OnceEach(s);
    assert r.ready == s.ready[1..] && r.threads == s.threads && r.workers == s.workers && r.prio == s.prio;
    assert r.dispatcher == Choosing(h);
    hide Apply, Fair, Smooth, Balanced, InRange, Enabled;
    HeadUrgent(s, t);
    assert Places(s, h) <= 1;
    OnePlaceOnly(s, h);
    HeadGone(s.ready, t);
    forall u | 0 <= u < |s.threads| ensures Returned(s.threads[u].pc) != Some(h) {
      assert Returned(s.threads[u].pc).Some? ==> Carried(s.threads[u].pc) == Returned(s.threads[u].pc);
    }
  }

  lemma HeadUrgent(s: State, t: Qid)
    requires s.priorities && Canonical(s) && Distinct(s.ready) && t in s.ready && t in s.ready[1..]
    requires Priority(s.prio, t) == 0 && Priority(s.prio, s.ready[0]) >= 0
    ensures Priority(s.prio, s.ready[0]) == 0 && s.ready[0] < t
  {
    var k :| 0 <= k < |s.ready[1..]| && s.ready[1..][k] == t;
    assert s.ready[k + 1] == t;
    assert !Before(s.prio, s.ready[k + 1], s.ready[0]) && s.ready[0] != s.ready[k + 1];
  }

  lemma HeadGone(ready: seq<Qid>, t: Qid)
    requires Distinct(ready) && ready != []
    ensures ready[0] !in ready[1..]
  {
  }

  lemma {:induction false} Shrinks(a: set<Qid>, b: set<Qid>)
    requires a <= b
    ensures |a| <= |b| && (a != b ==> |a| < |b|)
  {
    assert |b - a| + |a * b| == |b|;
    assert a * b == a;
    if a != b {
      var x :| x in b - a;
      assert |b - a| > 0;
    }
  }

  lemma AheadStep(s: State, p: Step, t: Qid)
    requires InRange(s) && Enabled(s, p) && FairStep(s, p) && Fair(s)
    requires t in s.ready && Priority(s.prio, t) == 0 && t in Apply(s, p).ready
    ensures |Ahead(Apply(s, p), t)| + (if p.Take? then 1 else 0) <= |Ahead(s, t)|
  {
    var r := Apply(s, p);
    FairParts(s, t);
    ReadyKnown(s);
    hide Fair, Smooth, Balanced, InRange, Enabled, FairStep, Apply, Pending;
    forall q | q in Ahead(r, t) ensures q in Ahead(s, t) {
      PendingStep(s, p, q);
    }
    if p.Take? {
      TakeStep(s, t);
      assert s.ready[0] in Ahead(s, t) && s.ready[0] !in Ahead(r, t);
    }
    Shrinks(Ahead(r, t), Ahead(s, t));
  }

  /** How many queries the dispatcher takes in a run. */
  function Takes(run: seq<Step>): nat {
    if run == [] then 0 else (if run[0].Take? then 1 else 0) + Takes(run[1..])
  }

  lemma {:induction false} TakesBounded(s: State, run: seq<Step>, t: Qid)
    requires InRange(s) && Fair(s) && Legal(s, run) && FairRun(s, run) && Waits(s, run, t) && Priority(s.prio, t) == 0
    ensures Takes(run) + |Ahead(After(s, run), t)| <= |Ahead(s, t)|
    decreases |run|
  {
    hide Fair, Apply, FairStep, Smooth, InRange, Enabled, Legal, FairRun, Waits, After, Ahead;
    WaitUnfold(s, run, t);
    FairParts(s, t);
    if run != [] {
      var r := Apply(s, run[0]);
      WaitUnfold(r, run[1..], t);
      FairAfter(s, run[0]);
      WaitingStep(s, run[0], t);
      AheadStep(s, run[0], t);
      TakesBounded(r, run[1..], t);
    }
  }

  /** The unfinished queries older than t. */
  function Unfinished(s: State, t: Qid): set<Qid> {
    set q: Qid | 0 <= q < t && q !in s.finished
  }

  lemma AheadUnfinished(s: State, t: Qid)
    requires Conserved(s)
    ensures |Ahead(s, t)| <= |Unfinished(s, t)|
  {
    forall q | q in Ahead(s, t) ensures q in Unfinished(s, t) {
      assert Places(s, q) <= 1;
      OnePlaceOnly(s, q);
      if OnItsWay(s, q) {
        var u :| 0 <= u < |s.threads| && Returned(s.threads[u].pc) == Some(q);
        assert Carried(s.threads[u].pc) == Some(q);
      }
      hide Places;
    }
    Shrinks(Ahead(s, t), Unfinished(s, t));
  }

  /** Bounded overtaking: take any orderly run under PRIORIDADES, then a stretch in which query t waits
      and at least as many ticks pass as its priority, then any further stretch in which t still
      waits. In that last stretch the dispatcher takes at most as many queries as there are unfinished
      queries with a smaller qid. */
  lemma BoundedOvertaking(start: State, before: seq<Step>, aging: seq<Step>, during: seq<Step>, t: Qid)
    requires Initial(start) && start.priorities && InRange(start) && Legal(start, before) && FairRun(start, before)
    requires var s := After(start, before);
             Legal(s, aging) && FairRun(s, aging) && Waits(s, aging, t) && Ticks(aging) >= Priority(s.prio, t)
    requires var m := After(After(start, before), aging);
             Legal(m, during) && FairRun(m, during) && Waits(m, during, t)
    ensures var m := After(After(start, before), aging);
            && Priority(m.prio, t) == 0
            && Takes(during) <= |Unfinished(m, t)|
  {
    hide Fair, Apply, FairStep, Smooth, Enabled, Legal, FairRun, Waits, After, Ahead, Unfinished;
    InitiallyFair(start);
    FairlyReached(start, before);
    var s := After(start, before);
    AgedWhileWaiting(s, aging, t);
    FairParts(s, t);
    FairlyReached(s, aging);
    var m := After(s, aging);
    FairParts(m, t);
    TakesBounded(m, during, t);
    AheadUnfinished(m, t);
  }
}
