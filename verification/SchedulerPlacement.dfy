/** Where each query is: conservation of queries over every interleaving. */
module SchedulerPlacement {
  import opened Common
  import opened ReadyQueue
  import opened Scheduler
  import opened SchedulerTokens

  // The query a thread is carrying.
  function Carried(pc: Pc): Option<Qid> {
    match pc
    case Registering(Requeue(q)) => Some(q)
    case Registering(Close(q)) => Some(q)
    case OwesWorker(Requeue(q)) => Some(q)
    case OwesWorker(Close(q)) => Some(q)
    case Inserting(q) => Some(q)
    case Closing(q) => Some(q)
    case _ => None
  }

  // The query the dispatcher popped and has not yet put on a worker or back in the queue.
  function InHand(d: Dispatcher): Option<Qid> {
    match d
    case Choosing(q) => Some(q)
    case Binding(q, _) => Some(q)
    case Returning(q) => Some(q)
    case _ => None
  }

  function Carries(q: Qid): Thread -> bool { (t: Thread) => Carried(t.pc) == Some(q) }
  function Executes(q: Qid): Worker -> bool { (w: Worker) => w.running == Some(q) }

  function Times(ready: seq<Qid>, q: Qid): nat { multiset(ready)[q] }

  /** In how many places query q is: handlers, ready queue, dispatcher's hand, workers, finished. */
  function Places(s: State, q: Qid): nat {
    Count(s.threads, Carries(q)) + Times(s.ready, q) + (if InHand(s.dispatcher) == Some(q) then 1 else 0) +
    Count(s.workers, Executes(q)) + (if q in s.finished then 1 else 0)
  }

  ghost predicate Conserved(s: State) {
    forall q: Qid :: Places(s, q) == if q < |s.prio| then 1 else 0
  }

  /** The steps that keep conservation: a send that fails puts the query back in the queue while the
      worker's record still names it, and a packet that cannot be built takes it off a record that a
      disconnection has already cleared. */
  predicate Keeps(s: State, p: Step)
    requires InRange(s) && Enabled(s, p)
  {
    p.Send? ==> p.outcome.Delivered? || (p.outcome.NoPacket? && s.workers[s.dispatcher.worker].running == Some(s.dispatcher.query))
  }

  lemma TimesSorted(s: State, prio: seq<int>, ready: seq<Qid>, q: Qid)
    ensures Times(Rearranged(s, prio, ready), q) == Times(ready, q)
  {
    SortSorts(prio, ready);
  }

  lemma TimesAdded(s: State, prio: seq<int>, ready: seq<Qid>, x: Qid, q: Qid)
    ensures Times(Rearranged(s, prio, ready + [x]), q) == Times(ready, q) + (if x == q then 1 else 0)
    ensures Times([x] + ready, q) == Times(ready, q) + (if x == q then 1 else 0)
  {
    TimesSorted(s, prio, ready + [x], q);
  }

  lemma TimesHead(ready: seq<Qid>, q: Qid)
    requires ready != []
    ensures Times(ready, q) == Times(ready[1..], q) + (if ready[0] == q then 1 else 0)
  {
    DropHead(ready);
  }

  lemma PlacesArriving(s: State, p: Step, q: Qid)
    requires InRange(s) && Enabled(s, p) && (p.QueryArrives? || p.WorkerArrives?)
    requires Places(s, q) == if q < |s.prio| then 1 else 0
    ensures Places(Apply(s, p), q) == if q < |Apply(s, p).prio| then 1 else 0
  {
    hide Apply, InRange, Enabled, Count, Times;
    Arrived(s, p);
    CountThreads(s, p, Carries(q));
    CountWorkers(s, p, Executes(q));
  }

  // What a message from a worker moves.
  lemma Reported(s: State, p: Step)
    requires InRange(s) && Enabled(s, p) && (p.ReportEvicted? || p.ReportFinished? || p.Disconnect?)
    ensures var r := Apply(s, p);
            var w := s.threads[p.t].role.worker;
            && r.prio == s.prio && r.ready == s.ready && r.dispatcher == s.dispatcher
            && p.t < |s.threads| == |r.threads| && Carried(s.threads[p.t].pc).None?
            && w < |s.workers| == |r.workers| && r.workers[w].running.None?
            && (if p.Disconnect? then
                  Carried(r.threads[p.t].pc).None? && r.finished == s.finished + if s.workers[w].running.Some? then {s.workers[w].running.value} else {}
                else r.finished == s.finished && Carried(r.threads[p.t].pc) == s.workers[w].running)
  {
    StepInRange(s, p);
    hide InRange;
  }

  lemma PlacesReporting(s: State, p: Step, q: Qid)
    requires InRange(s) && Enabled(s, p) && (p.ReportEvicted? || p.ReportFinished? || p.Disconnect?)
    requires Places(s, q) == if q < |s.prio| then 1 else 0
    ensures Places(Apply(s, p), q) == if q < |Apply(s, p).prio| then 1 else 0
  {
    hide Apply, InRange, Enabled, Count, Times, Carried;
    CountThreads(s, p, Carries(q));
    CountWorkers(s, p, Executes(q));
    Reported(s, p);
  }

  lemma Inserted(s: State, t: nat)
    requires InRange(s) && Enabled(s, Insert(t))
    ensures var r := Apply(s, Insert(t));
            && r.prio == s.prio && r.workers == s.workers && r.finished == s.finished && r.dispatcher == s.dispatcher
            && t < |s.threads| == |r.threads| && s.threads[t].pc.Inserting? && r.threads[t].pc == OwesQuery
            && r.ready == Rearranged(s, s.prio, s.ready + [s.threads[t].pc.query])
  {
    hide InRange, Sort;
  }

  lemma PlacesInsert(s: State, t: nat, q: Qid)
    requires InRange(s) && Enabled(s, Insert(t))
    ensures Places(Apply(s, Insert(t)), q) == Places(s, q)
  {
    hide Apply, InRange, Enabled, Count, Times, Rearranged;
    Inserted(s, t);
    CountThreads(s, Insert(t), Carries(q));
    TimesAdded(s, s.prio, s.ready, s.threads[t].pc.query, q);
  }

  lemma PlacesTick(s: State, t: nat, q: Qid)
    requires InRange(s) && Enabled(s, Tick(t))
    ensures Places(Apply(s, Tick(t)), q) == Places(s, q)
  {
    CountThreads(s, Tick(t), Carries(q));
    TimesSorted(s, Aged(s.prio, s.ready), s.ready, q);
    hide InRange, Count, Executes, Times, Sort, Aged;
  }

  // What the other steps of threads move: only the notification of an end moves a query.
  lemma Advanced(s: State, p: Step)
    requires InRange(s) && Enabled(s, p) && !Serves(p) && !Dispatches(p) && !p.Insert? && !p.Tick?
    ensures var r := Apply(s, p);
            var t := Actor(p).value;
            && r.prio == s.prio && r.ready == s.ready && r.dispatcher == s.dispatcher
            && t < |s.threads| == |r.threads|
            && (if p.Notify? then
                  s.threads[t].pc.Closing? && Carried(r.threads[t].pc).None? && r.finished == s.finished + {s.threads[t].pc.query}
                else r.finished == s.finished && Carried(r.threads[t].pc) == Carried(s.threads[t].pc))
            && (p.Register? ==>
                  s.threads[t].role.Handler? && s.threads[t].role.worker < |s.workers| == |r.workers| && r.workers[s.threads[t].role.worker].running.None?)
  {
    StepInRange(s, p);
    hide InRange, Worst;
  }

  lemma PlacesAdvancing(s: State, p: Step, q: Qid)
    requires InRange(s) && Enabled(s, p) && !Serves(p) && !Dispatches(p) && !p.Insert? && !p.Tick?
    requires p.Register? ==> s.workers[s.threads[p.t].role.worker].running.None?
    requires Places(s, q) == if q < |s.prio| then 1 else 0
    ensures Places(Apply(s, p), q) == if q < |Apply(s, p).prio| then 1 else 0
  {
    hide Apply, InRange, Enabled, Count, Times;
    CountThreads(s, p, Carries(q));
    CountWorkers(s, p, Executes(q));
    Advanced(s, p);
  }

  // What the dispatcher's steps on the queue and the semaphores move.
  lemma Taken(s: State, p: Step)
    requires InRange(s) && Enabled(s, p) && Dispatches(p) && !p.Choose? && !p.Bind? && !p.Send?
    ensures var r := Apply(s, p);
            && r.prio == s.prio && r.threads == s.threads && r.workers == s.workers && r.finished == s.finished
            && (if p.Take? && s.ready != [] then
                  r.ready == s.ready[1..] && r.dispatcher == Choosing(s.ready[0]) && s.dispatcher == Taking
                else if p.PutBack? then
                  s.dispatcher.Returning? && r.dispatcher == RepostQuery && r.ready == [s.dispatcher.query] + s.ready
                else r.ready == s.ready && InHand(s.dispatcher).None? && InHand(r.dispatcher).None?)
  {
    hide InRange, FirstFree;
  }

  lemma PlacesTaking(s: State, p: Step, q: Qid)
    requires InRange(s) && Enabled(s, p) && Dispatches(p) && !p.Choose? && !p.Bind? && !p.Send?
    requires Places(s, q) == if q < |s.prio| then 1 else 0
    ensures Places(Apply(s, p), q) == if q < |Apply(s, p).prio| then 1 else 0
  {
    hide Apply, InRange, Enabled, Count, Times;
    Taken(s, p);
    if p.Take? && s.ready != [] {
      TimesHead(s.ready, q);
    }
    if p.PutBack? {
      TimesAdded(s, s.prio, s.ready, s.dispatcher.query, q);
    }
  }

  // What the dispatcher's steps on a worker move.
  lemma Assigned(s: State, p: Step)
    requires InRange(s) && Enabled(s, p) && (p.Choose? || p.Bind? || p.Send?)
    ensures var r := Apply(s, p);
            && r.prio == s.prio && r.threads == s.threads && r.ready == s.ready && r.finished == s.finished
            && (p.Choose? ==>
                  InHand(r.dispatcher) == InHand(s.dispatcher) &&
                  forall w :: 0 <= w < |s.workers| == |r.workers| ==> r.workers[w].running == s.workers[w].running)
            && (p.Bind? ==>
                  && s.dispatcher.Binding? && InHand(s.dispatcher) == Some(s.dispatcher.query) && InHand(r.dispatcher).None?
                  && s.dispatcher.worker < |r.workers| && r.workers[s.dispatcher.worker].running == Some(s.dispatcher.query))
            && (p.Send? ==>
                  && s.dispatcher.Sending? && InHand(s.dispatcher).None? && s.dispatcher.worker < |s.workers| == |r.workers|
                  && (p.outcome.Delivered? ==> r.workers == s.workers && InHand(r.dispatcher).None?)
                  && (!p.outcome.Delivered? ==> InHand(r.dispatcher) == Some(s.dispatcher.query))
                  && (p.outcome.Refused? ==> r.workers == s.workers)
                  && (p.outcome.NoPacket? ==> r.workers[s.dispatcher.worker].running.None?))
  {
    StepInRange(s, p);
    hide InRange;
  }

  lemma PlacesAssigning(s: State, p: Step, q: Qid)
    requires InRange(s) && Enabled(s, p) && (p.Choose? || p.Bind? || p.Send?) && Keeps(s, p)
    requires p.Bind? ==> s.workers[s.dispatcher.worker].running.None?
    requires Places(s, q) == if q < |s.prio| then 1 else 0
    ensures Places(Apply(s, p), q) == if q < |Apply(s, p).prio| then 1 else 0
  {
    hide Apply, InRange, Enabled, Count, Times, FirstFree, InHand;
    CountWorkers(s, p, Executes(q));
    Assigned(s, p);
  }

  /** A step keeps every query in exactly one place if and only if it is not one of those sends. */
  lemma ConservationStep(s: State, p: Step)
    requires InRange(s) && Enabled(s, p) && OnePhase(s) && Conserved(s)
    ensures Conserved(Apply(s, p)) <==> Keeps(s, p)
  {
    if Keeps(s, p) {
      RegisteredIdle(s, p);
      forall q: Qid ensures Places(Apply(s, p), q) == if q < |Apply(s, p).prio| then 1 else 0 {
        hide Apply, Places;
        if p.QueryArrives? || p.WorkerArrives? {
          PlacesArriving(s, p, q);
        } else if Serves(p) {
          PlacesReporting(s, p, q);
        } else if p.Insert? {
          PlacesInsert(s, p.t, q);
        } else if p.Tick? {
          PlacesTick(s, p.t, q);
        } else if p.Choose? || p.Bind? || p.Send? {
          PlacesAssigning(s, p, q);
        } else if Dispatches(p) {
          PlacesTaking(s, p, q);
        } else {
          PlacesAdvancing(s, p, q);
        }
      }
    } else {
      FailedSendDuplicates(s, p);
      assert Places(s, s.dispatcher.query) <= 1;
    }
  }

  lemma FailedSendDuplicates(s: State, p: Step)
    requires InRange(s) && Enabled(s, p) && !Keeps(s, p)
    ensures Places(Apply(s, p), s.dispatcher.query) == Places(s, s.dispatcher.query) + 1
    ensures Apply(s, p).prio == s.prio
  {
    hide Apply, InRange, Enabled, Count, Times, InHand;
    Assigned(s, p);
    CountWorkers(s, p, Executes(s.dispatcher.query));
  }

  /** Every step of the run keeps conservation. */
  ghost predicate Keeping(s: State, run: seq<Step>)
    requires InRange(s) && Legal(s, run)
    decreases |run|
  {
    run == [] || (Keeps(s, run[0]) && Keeping(Apply(s, run[0]), run[1..]))
  }

  lemma {:induction false} ConservedRun(s: State, run: seq<Step>)
    requires InRange(s) && OnePhase(s) && Conserved(s) && Legal(s, run) && Keeping(s, run)
    ensures OnePhase(After(s, run)) && Conserved(After(s, run))
    decreases |run|
  {
    if run != [] {
      ConservationStep(s, run[0]);
      OnePhaseStep(s, run[0]);
      hide OnePhase, Conserved, Apply, Keeps;
      ConservedRun(Apply(s, run[0]), run[1..]);
    }
  }

  lemma InitiallyConserved(s: State)
    requires Initial(s)
    ensures Conserved(s)
  {
    forall q: Qid ensures Places(s, q) == 0 {
      assert Count(s.threads, Carries(q)) == 0;
    }
  }

  // Being in one place excludes being in another.
  lemma OnePlaceOnly(s: State, q: Qid)
    requires Places(s, q) <= 1
    ensures q in s.ready ==> forall w :: 0 <= w < |s.workers| ==> s.workers[w].running != Some(q)
    ensures forall v, w :: 0 <= v < w < |s.workers| && s.workers[v].running == Some(q) ==> s.workers[w].running != Some(q)
    ensures q in s.finished ==> q !in s.ready && forall w :: 0 <= w < |s.workers| ==> s.workers[w].running != Some(q)
    ensures forall t :: 0 <= t < |s.threads| && Carried(s.threads[t].pc) == Some(q) ==> q !in s.ready && q !in s.finished
    ensures InHand(s.dispatcher) == Some(q) ==> q !in s.ready && q !in s.finished
  {
    assert q in s.ready <==> q in multiset(s.ready);
    forall w | 0 <= w < |s.workers| && s.workers[w].running == Some(q) ensures Count(s.workers, Executes(q)) >= 1 {
      CountPositive(s.workers, w, Executes(q));
    }
    forall t | 0 <= t < |s.threads| && Carried(s.threads[t].pc) == Some(q) ensures Count(s.threads, Carries(q)) >= 1 {
      CountPositive(s.threads, t, Carries(q));
    }
    forall v, w | 0 <= v < w < |s.workers| && s.workers[v].running == Some(q) ensures s.workers[w].running != Some(q) {
      if s.workers[w].running == Some(q) {
        CountTwo(s.workers, v, w, Executes(q));
      }
    }
  }

  /** Query conservation: while sends succeed, every query created so far is in exactly one place, no
      other is anywhere, no query runs on two workers or waits while it runs, and no free worker
      executes one. */
  lemma QueriesConserved(start: State, run: seq<Step>)
    requires Initial(start) && InRange(start) && Legal(start, run) && Keeping(start, run)
    ensures Conserved(After(start, run))
    ensures Distinct(After(start, run).ready)
    ensures var s := After(start, run);
            forall v, w, q :: 0 <= v < |s.workers| && 0 <= w < |s.workers| && s.workers[v].running == Some(q) ==>
              q !in s.ready && q !in s.finished && !Idles(s.workers[v]) && (v != w ==> s.workers[w].running != Some(q))
  {
    InitiallyBalanced(start);
    InitiallyConserved(start);
    ConservedRun(start, run);
    BalancedRun(start, run);
    var s := After(start, run);
    Settled(s);
    OnceEach(s);
    forall v, w, q | 0 <= v < |s.workers| && 0 <= w < |s.workers| && s.workers[v].running == Some(q)
      ensures q !in s.ready && q !in s.finished && !Idles(s.workers[v]) && (v != w ==> s.workers[w].running != Some(q))
    {
      assert Places(s, q) <= 1;
      OnePlaceOnly(s, q);
    }
  }

  lemma OnceEach(s: State)
    requires Conserved(s)
    ensures Distinct(s.ready)
  {
    forall i, j | 0 <= i < j < |s.ready| ensures s.ready[i] != s.ready[j] {
      assert Places(s, s.ready[i]) <= 1;
      if s.ready[i] == s.ready[j] {
        TwiceIn(s.ready, i, j);
      }
    }
  }

  lemma TwiceIn(s: seq<Qid>, i: nat, j: nat)
    requires i < j < |s| && s[i] == s[j]
    ensures multiset(s)[s[i]] >= 2
  {
    assert s == s[..j] + [s[j]] + s[j + 1..];
    assert s[..j][i] == s[j];
    assert s[j] in multiset(s[..j]);
  }

  /** A disconnection between reserving a worker and setting `ejecutando` strands the query on the
      record of a worker that is gone: it is not queued, not finished, and no handler is left for it. */
  lemma ReservedWorkerLost(s: State, t: nat)
    requires InRange(s) && OnePhase(s) && s.dispatcher.Binding? && Listening(s, t)
    requires s.threads[t].role == Handler(s.dispatcher.worker)
    ensures Legal(s, [Disconnect(t), Bind, Send(Delivered)])
    ensures var r := After(s, [Disconnect(t), Bind, Send(Delivered)]);
            && |r.workers| == |s.workers| && r.workers[s.dispatcher.worker] == Worker(false, false, Some(s.dispatcher.query))
            && r.ready == s.ready && r.finished == s.finished
            && forall u :: 0 <= u < |r.threads| && r.threads[u].role == Handler(s.dispatcher.worker) ==> r.threads[u].pc.Gone?
  {
    assert Phases(s, s.dispatcher.worker) == 1;
    ReservedWorkerSteps(s, t);
    ThreeSteps(s, Disconnect(t), Bind, Send(Delivered));
    hide Apply, Phases;
    assert forall u :: 0 <= u < |s.threads| && s.threads[u].role == Handler(s.dispatcher.worker) ==> u == t;
  }

  lemma LostOn(s: State, t: nat)
    requires InRange(s) && s.dispatcher.Binding? && Listening(s, t) && s.threads[t].role == Handler(s.dispatcher.worker)
    ensures Enabled(s, Disconnect(t))
    ensures var r := Apply(s, Disconnect(t));
            && r.dispatcher == s.dispatcher && r.ready == s.ready && r.threads == s.threads[t := s.threads[t].(pc := Gone)]
            && |r.workers| == |s.workers| && r.workers[s.dispatcher.worker] == s.workers[s.dispatcher.worker].(connected := false, running := None)
            && (s.workers[s.dispatcher.worker].running.None? ==> r.finished == s.finished)
  {
    StepInRange(s, Disconnect(t));
  }

  lemma BoundAndSent(s: State)
    requires InRange(s) && s.dispatcher.Binding?
    ensures Enabled(s, Bind) && Enabled(Apply(s, Bind), Send(Delivered))
    ensures var r := Apply(Apply(s, Bind), Send(Delivered));
            && r.ready == s.ready && r.threads == s.threads && r.finished == s.finished
            && |r.workers| == |s.workers| && r.workers[s.dispatcher.worker] == s.workers[s.dispatcher.worker].(running := Some(s.dispatcher.query))
  {
    var a := Apply(s, Bind);
    assert a.dispatcher == Sending(s.dispatcher.query, s.dispatcher.worker);
    hide FirstFree, Sort, Aged, Worst;
  }

  lemma ReservedWorkerSteps(s: State, t: nat)
    requires InRange(s) && s.dispatcher.Binding? && Listening(s, t) && s.threads[t].role == Handler(s.dispatcher.worker)
    requires !s.workers[s.dispatcher.worker].free
    ensures Enabled(s, Disconnect(t)) && Enabled(Apply(s, Disconnect(t)), Bind)
    ensures Enabled(Apply(Apply(s, Disconnect(t)), Bind), Send(Delivered))
    ensures var r := Apply(Apply(Apply(s, Disconnect(t)), Bind), Send(Delivered));
            && |r.workers| == |s.workers| && r.workers[s.dispatcher.worker] == Worker(false, false, Some(s.dispatcher.query))
            && r.ready == s.ready && r.threads == s.threads[t := s.threads[t].(pc := Gone)]
            && (s.workers[s.dispatcher.worker].running.None? ==> r.finished == s.finished)
  {
    hide Apply, Enabled, InRange, Listening;
    LostOn(s, t);
    BoundAndSent(Apply(s, Disconnect(t)));
  }

  lemma ThreeSteps(s: State, p: Step, q: Step, r: Step)
    requires InRange(s) && Enabled(s, p) && Enabled(Apply(s, p), q) && Enabled(Apply(Apply(s, p), q), r)
    ensures Legal(s, [p, q, r]) && After(s, [p, q, r]) == Apply(Apply(Apply(s, p), q), r)
  {
    hide Apply, Enabled;
    var a := Apply(s, p);
    var b := Apply(a, q);
    var c := Apply(b, r);
    assert [p, q, r][1..] == [q, r] && [q, r][1..] == [r] && [r][1..] == [];
    assert Legal(c, []) && After(c, []) == c;
    assert Legal(b, [r]) && After(b, [r]) == c;
    assert Legal(a, [q, r]) && After(a, [q, r]) == c;
  }
}
