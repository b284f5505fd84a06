/** The order of the ready queue and the preemption decision under PRIORIDADES. */
module SchedulerOrder {
  import opened Common
  import opened ReadyQueue
  import opened Scheduler
  import opened SchedulerTokens
  import opened SchedulerPlacement

  ghost predicate Canonical(s: State) {
    s.priorities ==> Ordered(s.prio, s.ready)
  }

  ghost predicate KnownReady(s: State) {
    forall i :: 0 <= i < |s.ready| ==> s.ready[i] < |s.prio|
  }

  lemma ReadyKnown(s: State)
    requires Conserved(s)
    ensures KnownReady(s)
  {
    forall i | 0 <= i < |s.ready| ensures s.ready[i] < |s.prio| {
      assert s.ready[i] in multiset(s.ready);
      assert Places(s, s.ready[i]) >= 1;
    }
  }

  // What a step does to the queue and to the priorities.
  lemma QueueAfter(s: State, p: Step)
    requires InRange(s) && Enabled(s, p)
    ensures var r := Apply(s, p);
            && r.priorities == s.priorities
            && r.ready == (if p.Insert? then Rearranged(s, s.prio, s.ready + [s.threads[p.t].pc.query])
                           else if p.Tick? then Sort(r.prio, s.ready)
                           else if p.Take? && s.ready != [] then s.ready[1..]
                           else if p.PutBack? then [s.dispatcher.query] + s.ready
                           else s.ready)
            && r.prio == (if p.Tick? then Aged(s.prio, s.ready)
                          else if p.QueryArrives? then s.prio + [p.priority]
                          else s.prio)
  {
    hide InRange, Rearranged, Sort, Aged, FirstFree, Worst;
  }

  /** Which steps keep the queue canonical: all but putting a popped query back in front of a more
      urgent one. */
  lemma CanonicalStep(s: State, p: Step)
    requires InRange(s) && Enabled(s, p) && Canonical(s) && KnownReady(s)
    ensures Canonical(Apply(s, p)) <==>
            (s.priorities && p.PutBack? && s.ready != [] ==> !Before(s.prio, s.ready[0], s.dispatcher.query))
  {
    hide Apply, InRange, Enabled, Sort, Aged, Before;
    QueueAfter(s, p);
    StepInRange(s, p);
    var r := Apply(s, p);
    if s.priorities {
      if p.Insert? {
        SortSorts(s.prio, s.ready + [s.threads[p.t].pc.query]);
      } else if p.Tick? {
        SortSorts(r.prio, s.ready);
      } else if p.PutBack? {
        PutBackOrder(s.prio, s.dispatcher.query, s.ready);
      } else if p.QueryArrives? {
        OrderKept(s.prio, r.prio, s.ready);
      }
    }
  }

  // The order looks only at the priorities of the queries in it.
  lemma OrderKept(prio: seq<int>, after: seq<int>, ready: seq<Qid>)
    requires Ordered(prio, ready) && forall i :: 0 <= i < |ready| ==> Priority(after, ready[i]) == Priority(prio, ready[i])
    ensures Ordered(after, ready)
  {
  }

  lemma PutBackOrder(prio: seq<int>, q: Qid, ready: seq<Qid>)
    requires Ordered(prio, ready)
    ensures Ordered(prio, [q] + ready) <==> ready == [] || !Before(prio, ready[0], q)
  {
    var r := [q] + ready;
    if ready != [] && !Before(prio, ready[0], q) {
      forall i, j | 0 <= i < j < |r| ensures !Before(prio, r[j], r[i]) {
        assert r[j] == ready[j - 1] && (i > 0 ==> r[i] == ready[i - 1]);
        assert j > 1 ==> !Before(prio, ready[j - 1], ready[0]);
      }
    } else if ready != [] {
      assert r[1] == ready[0] && r[0] == q;
    }
  }

  // No disconnection and no send that fails.
  predicate SmoothStep(p: Step) { !p.Disconnect? && (p.Send? ==> p.outcome.Delivered?) }

  ghost predicate Smooth(s: State)
    requires InRange(s)
  {
    && Balanced(s) && Conserved(s) && AllConnected(s) && Canonical(s)
    && WorkerTokens(s) == Count(s.workers, Free())
    && !s.dispatcher.Returning? && !s.dispatcher.RepostQuery? && !s.dispatcher.RepostWorker?
  }

  lemma BalancedStep(s: State, p: Step)
    requires InRange(s) && Enabled(s, p) && Balanced(s)
    ensures Balanced(Apply(s, p))
  {
    hide Apply, OnePhase, QueryTokens, WorkerTokens;
    QueryTokensStep(s, p);
    WorkerTokensStep(s, p);
    OnePhaseStep(s, p);
  }

  // The dispatcher never has to put a query or a token back.
  lemma NeverReturns(s: State, p: Step)
    requires InRange(s) && Enabled(s, p) && Smooth(s) && SmoothStep(p)
    ensures var d := Apply(s, p).dispatcher; !d.Returning? && !d.RepostQuery? && !d.RepostWorker?
  {
    if Dispatches(p) {
      assert QueryTokens(s);
      if p.Choose? {
        FindsWorker(s);
      }
      hide Count, FirstFree, Smooth;
    } else {
      assert Apply(s, p).dispatcher == s.dispatcher;
    }
  }

  lemma FindsWorker(s: State)
    requires WorkerTokens(s) == Count(s.workers, Free()) && s.dispatcher.Choosing?
    ensures FirstFree(s.workers).Some?
  {
    var w := CountWitness(s.workers, Free());
    FirstIsFirst(s.workers, Free());
  }

  lemma SmoothAfter(s: State, p: Step)
    requires InRange(s) && Enabled(s, p) && Smooth(s) && SmoothStep(p)
    ensures Smooth(Apply(s, p))
  {
    NeverReturns(s, p);
    hide Apply, Balanced, Conserved, AllConnected, Canonical, WorkerTokens;
    BalancedStep(s, p);
    ConservationStep(s, p) by { assert Balanced(s); ShowPhase(s); }
    ReadyKnown(s);
    CanonicalStep(s, p);
    AllConnectedStep(s, p);
    ShowPhase(s);
    ExactTokensStep(s, p);
  }

  lemma ShowPhase(s: State)
    requires InRange(s) && Balanced(s)
    ensures OnePhase(s)
  {
  }

  lemma InitiallySmooth(s: State)
    requires Initial(s)
    ensures InRange(s) && Smooth(s)
  {
    InitiallyBalanced(s);
    InitiallyConserved(s);
  }

  lemma {:induction false} SmoothRun(s: State, run: seq<Step>)
    requires InRange(s) && Smooth(s) && Legal(s, run) && forall k :: 0 <= k < |run| ==> SmoothStep(run[k])
    ensures Smooth(After(s, run))
    decreases |run|
  {
    if run != [] {
      SmoothAfter(s, run[0]);
      hide Smooth, Apply, SmoothStep;
      SmoothRun(Apply(s, run[0]), run[1..]);
    }
  }

  /** Canonical ready queue: under PRIORIDADES, after any mix of arrivals, insertions, aging ticks and
      dispatches, the queue is the one (priority, qid)-sorted arrangement of the waiting queries. */
  lemma CanonicalQueue(start: State, run: seq<Step>, other: seq<Qid>)
    requires Initial(start) && start.priorities && InRange(start) && Legal(start, run)
    requires forall k :: 0 <= k < |run| ==> SmoothStep(run[k])
    ensures var s := After(start, run);
            Ordered(s.prio, s.ready) && (Ordered(s.prio, other) && multiset(other) == multiset(s.ready) ==> other == s.ready)
  {
    InitiallySmooth(start);
    SmoothRun(start, run);
    ModeKept(start, run);
    var s := After(start, run);
    if Ordered(s.prio, other) && multiset(other) == multiset(s.ready) {
      SortedUnique(s.prio, other, s.ready);
    }
  }

  lemma {:induction false} ModeKept(s: State, run: seq<Step>)
    requires InRange(s) && Legal(s, run)
    ensures After(s, run).priorities == s.priorities
    decreases |run|
  {
    if run != [] {
      assert Apply(s, run[0]).priorities == s.priorities;
      hide Apply;
      ModeKept(Apply(s, run[0]), run[1..]);
    }
  }

  // The query a step adds to the ready queue, and the one it takes off its head.
  function Entering(s: State, p: Step): seq<Qid>
    requires InRange(s) && Enabled(s, p)
  {
    if p.Insert? then [s.threads[p.t].pc.query] else []
  }

  function Leaving(s: State, p: Step): seq<Qid>
    requires InRange(s) && Enabled(s, p)
  {
    if p.Take? && s.ready != [] then [s.ready[0]] else []
  }

  /** The queries a run adds to the ready queue, in order, and those it dispatches, in order. */
  ghost function Entered(s: State, run: seq<Step>): seq<Qid>
    requires InRange(s) && Legal(s, run)
    decreases |run|
  {
    if run == [] then [] else Entering(s, run[0]) + Entered(Apply(s, run[0]), run[1..])
  }

  ghost function Dispatched(s: State, run: seq<Step>): seq<Qid>
    requires InRange(s) && Legal(s, run)
    decreases |run|
  {
    if run == [] then [] else Leaving(s, run[0]) + Dispatched(Apply(s, run[0]), run[1..])
  }

  lemma FifoStep(s: State, p: Step)
    requires InRange(s) && Enabled(s, p) && !s.priorities && !s.dispatcher.Returning?
    ensures s.ready + Entering(s, p) == Leaving(s, p) + Apply(s, p).ready
    ensures !Apply(s, p).priorities
  {
    hide Apply, InRange, Enabled;
    QueueAfter(s, p);
    StepInRange(s, p);
    assert s.ready + [] == [] + s.ready;
  }

  lemma {:induction false} FifoRun(s: State, run: seq<Step>)
    requires InRange(s) && Smooth(s) && !s.priorities && Legal(s, run) && forall k :: 0 <= k < |run| ==> SmoothStep(run[k])
    ensures s.ready + Entered(s, run) == Dispatched(s, run) + After(s, run).ready
    decreases |run|
  {
    if run == [] {
      assert s.ready + [] == [] + s.ready;
    } else {
      var r := Apply(s, run[0]);
      FifoStep(s, run[0]);
      SmoothAfter(s, run[0]);
      FifoRun(r, run[1..]);
      var e, l := Entered(r, run[1..]), Dispatched(r, run[1..]);
      hide *;
      FifoGlue(s.ready, Entering(s, run[0]), e, Leaving(s, run[0]), r.ready, l, After(r, run[1..]).ready);
    }
  }

  lemma FifoGlue(ready: seq<Qid>, inOne: seq<Qid>, inRest: seq<Qid>, outOne: seq<Qid>, mid: seq<Qid>, outRest: seq<Qid>, last: seq<Qid>)
    requires ready + inOne == outOne + mid && mid + inRest == outRest + last
    ensures ready + (inOne + inRest) == outOne + outRest + last
  {
    assert ready + (inOne + inRest) == ready + inOne + inRest == outOne + (mid + inRest);
  }

  /** FIFO: in any orderly run from the start the queries are dispatched in exactly the order in which
      they entered the ready queue, and those still waiting wait in that order. */
  lemma FirstInFirstOut(start: State, run: seq<Step>)
    requires Initial(start) && !start.priorities && InRange(start) && Legal(start, run)
    requires forall k :: 0 <= k < |run| ==> SmoothStep(run[k])
    ensures Entered(start, run) == Dispatched(start, run) + After(start, run).ready
  {
    InitiallySmooth(start);
    FifoRun(start, run);
    assert start.ready + Entered(start, run) == Entered(start, run);
  }

  /** verificar_desalojo with nothing in between: its three steps taken by thread t. */
  function CheckPreemption(s: State, t: nat): (r: State)
    requires InRange(s) && Enabled(s, ReadHead(t))
  {
    var a := Apply(s, ReadHead(t));
    if !Enabled(a, FindWorst(t)) then a
    else
      var b := Apply(a, FindWorst(t));
      if !Enabled(b, Compare(t, true)) then b else Apply(b, Compare(t, true))
  }

  // Some waiting query is strictly more urgent than some running one.
  ghost predicate Inversion(prio: seq<int>, ready: seq<Qid>, workers: seq<Worker>) {
    exists i, w :: 0 <= i < |ready| && 0 <= w < |workers| && Runs(workers[w]) &&
      Priority(prio, ready[i]) < Executed(prio, workers[w])
  }

  // What verificar_desalojo asks for.
  function Verdict(prio: seq<int>, ready: seq<Qid>, workers: seq<Worker>): Option<nat> {
    var w := Worst(prio, workers);
    if ready != [] && w.Some? && Priority(prio, ready[0]) < Executed(prio, workers[w.value]) then w else None
  }

  /** Preemption is exact: on a canonical queue an eviction is asked for if and only if some waiting
      query is strictly better than some running one, and it names a running query of worst priority
      that every more urgent waiting query beats. */
  lemma VerdictExact(prio: seq<int>, ready: seq<Qid>, workers: seq<Worker>)
    requires Ordered(prio, ready)
    ensures Verdict(prio, ready, workers).Some? <==> Inversion(prio, ready, workers)
    ensures Verdict(prio, ready, workers).Some? ==>
              var v := Verdict(prio, ready, workers).value;
              v < |workers| && Runs(workers[v]) &&
              forall w :: 0 <= w < |workers| && Runs(workers[w]) ==> Executed(prio, workers[w]) <= Executed(prio, workers[v])
    ensures Verdict(prio, ready, workers).None? ==>
              forall i, w :: 0 <= i < |ready| && 0 <= w < |workers| && Runs(workers[w]) ==>
                Priority(prio, ready[i]) >= Executed(prio, workers[w])
  {
    WorstIsWorst(prio, workers);
    assert forall i :: 0 < i < |ready| ==> !Before(prio, ready[i], ready[0]);
    hide Worst;
  }

  /** Worker w runs a query of the largest priority number, and is the first that does. */
  ghost predicate WorstRunning(prio: seq<int>, workers: seq<Worker>, w: nat) {
    && w < |workers| && Runs(workers[w])
    && forall k :: 0 <= k < |workers| && Runs(workers[k]) ==>
         Executed(prio, workers[k]) < Executed(prio, workers[w]) ||
         (Executed(prio, workers[k]) == Executed(prio, workers[w]) && w <= k)
  }

  /** What verificar_desalojo makes of the eviction messages: if some waiting query is strictly better than
      some running one and the message can be sent, a running query of worst priority is added to them,
      otherwise nothing is. */
  ghost predicate Asks(prio: seq<int>, ready: seq<Qid>, workers: seq<Worker>, sent: bool,
                       before: set<(nat, Qid)>, after: set<(nat, Qid)>) {
    if sent && Inversion(prio, ready, workers) then
      exists w: nat :: WorstRunning(prio, workers, w) && after == before + {(w, workers[w].running.value)}
    else after == before
  }

  // The messages after the two comparisons of verificar_desalojo.
  function Asked(prio: seq<int>, ready: seq<Qid>, workers: seq<Worker>, sent: bool, before: set<(nat, Qid)>): set<(nat, Qid)> {
    var v := Verdict(prio, ready, workers);
    if sent && v.Some? then before + {(v.value, workers[v.value].running.value)} else before
  }

  lemma AskedIs(prio: seq<int>, ready: seq<Qid>, workers: seq<Worker>, sent: bool, before: set<(nat, Qid)>)
    ensures var on := Worst(prio, workers);
            Asked(prio, ready, workers, sent, before) ==
            if ready != [] && sent && on.Some? && Priority(prio, ready[0]) < Executed(prio, workers[on.value])
            then before + {(on.value, workers[on.value].running.value)} else before
  {
    hide Worst;
  }

  lemma AskedAsks(prio: seq<int>, ready: seq<Qid>, workers: seq<Worker>, sent: bool, before: set<(nat, Qid)>)
    requires Ordered(prio, ready)
    ensures Asks(prio, ready, workers, sent, before, Asked(prio, ready, workers, sent, before))
  {
    VerdictExact(prio, ready, workers);
    var v := Verdict(prio, ready, workers);
    if v.Some? {
      WorstIsWorst(prio, workers);
      assert WorstRunning(prio, workers, v.value);
    }
    hide Worst, Inversion, WorstRunning;
  }

  lemma PreemptionExact(s: State, t: nat)
    requires InRange(s) && Enabled(s, ReadHead(t)) && s.priorities && Canonical(s)
    ensures var v := Verdict(s.prio, s.ready, s.workers);
            var r := CheckPreemption(s, t);
            && r.threads[..] == s.threads[t := s.threads[t].(pc := Idle)]
            && r.requests == (if v.None? then s.requests else s.requests + {(v.value, s.workers[v.value].running.value)})
            && r == s.(threads := r.threads, requests := r.requests)
            && (v.Some? <==> Inversion(s.prio, s.ready, s.workers))
  {
    VerdictExact(s.prio, s.ready, s.workers);
    hide Worst, Inversion;
  }
}
