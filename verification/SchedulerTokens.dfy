/** The two counting semaphores of the scheduler, in every interleaving. */
module SchedulerTokens {
  import opened Common
  import opened ReadyQueue
  import opened Scheduler

  function OwingQuery(): Thread -> bool { (t: Thread) => t.pc.OwesQuery? }
  function OwingWorker(): Thread -> bool { (t: Thread) => t.pc.OwesWorker? }

  // Query tokens the dispatcher has taken or still has to give back.
  function HeldQuery(d: Dispatcher): nat {
    if d.WaitWorker? || d.Taking? || d.RepostQuery? then 1 else 0
  }

  function HeldWorker(d: Dispatcher): nat {
    if d.Taking? || d.Choosing? || d.Returning? || d.RepostQuery? || d.RepostWorker? then 1 else 0
  }

  predicate QueryTokens(s: State) {
    s.semQueries + HeldQuery(s.dispatcher) + Count(s.threads, OwingQuery()) == |s.ready|
  }

  function WorkerTokens(s: State): nat {
    s.semWorkers + HeldWorker(s.dispatcher) + Count(s.threads, OwingWorker())
  }

  // How a step changes a count over the threads.
  lemma CountThreads(s: State, p: Step, f: Thread -> bool)
    requires InRange(s) && Enabled(s, p)
    ensures var r := Apply(s, p);
            match Actor(p)
            case Some(t) =>
              |r.threads| == |s.threads| &&
              Count(r.threads, f) + (if f(s.threads[t]) then 1 else 0) == Count(s.threads, f) + (if f(r.threads[t]) then 1 else 0)
            case None =>
              |r.threads| >= |s.threads| &&
              Count(r.threads, f) == Count(s.threads, f) + (if |r.threads| > |s.threads| && f(r.threads[|s.threads|]) then 1 else 0)
  {
    var r := Apply(s, p);
    ThreadsAfter(s, p);
    match Actor(p)
    case Some(t) => CountUpdate(s.threads, t, r.threads[t], f);
    case None => if r.threads != s.threads { CountAppend(s.threads, r.threads[|s.threads|], f); }
  }

  /** The worker whose record a step changes. */
  function Touched(s: State, p: Step): Option<nat>
    requires InRange(s) && Enabled(s, p)
  {
    match p
    case ReportEvicted(t) => Some(s.threads[t].role.worker)
    case ReportFinished(t) => Some(s.threads[t].role.worker)
    case Disconnect(t) => Some(s.threads[t].role.worker)
    case Register(t) => Some(s.threads[t].role.worker)
    case Choose => FirstFree(s.workers)
    case Bind => Some(s.dispatcher.worker)
    case Send(NoPacket) => Some(s.dispatcher.worker)
    case _ => None
  }

  lemma WorkersDispatching(s: State, p: Step)
    requires InRange(s) && Enabled(s, p) && Dispatches(p)
    ensures var r := Apply(s, p);
            match Touched(s, p)
            case Some(w) => w < |s.workers| == |r.workers| && r.workers == s.workers[w := r.workers[w]]
            case None => r.workers == s.workers
  {
    StepInRange(s, p);
    hide InRange, FirstFree;
  }

  lemma WorkersAfter(s: State, p: Step)
    requires InRange(s) && Enabled(s, p)
    ensures var r := Apply(s, p);
            match Touched(s, p)
            case Some(w) => w < |s.workers| == |r.workers| && r.workers == s.workers[w := r.workers[w]]
            case None => r.workers == if p.WorkerArrives? then s.workers + [Worker(true, true, None)] else s.workers
  {
    if Dispatches(p) {
      WorkersDispatching(s, p);
      hide Apply, Enabled, InRange;
    } else {
      StepInRange(s, p);
      hide InRange, Dispatch, Sort, Aged, Worst, FirstFree;
    }
  }

  lemma CountWorkers(s: State, p: Step, f: Worker -> bool)
    requires InRange(s) && Enabled(s, p)
    ensures var r := Apply(s, p);
            match Touched(s, p)
            case Some(w) =>
              w < |s.workers| == |r.workers| &&
              Count(r.workers, f) + (if f(s.workers[w]) then 1 else 0) == Count(s.workers, f) + (if f(r.workers[w]) then 1 else 0)
            case None =>
              Count(r.workers, f) == Count(s.workers, f) + (if p.WorkerArrives? && f(Worker(true, true, None)) then 1 else 0)
  {
    var r := Apply(s, p);
    WorkersAfter(s, p);
    match Touched(s, p)
    case Some(w) => CountUpdate(s.workers, w, r.workers[w], f);
    case None => if p.WorkerArrives? { CountAppend(s.workers, Worker(true, true, None), f); }
  }

  lemma QueryTokensServing(s: State, p: Step)
    requires InRange(s) && Enabled(s, p) && Serves(p) && QueryTokens(s)
    ensures QueryTokens(Apply(s, p))
  {
    hide Apply, InRange, Enabled, Count;
    CountThreads(s, p, OwingQuery());
    if p.QueryArrives? || p.WorkerArrives? {
      Arrived(s, p);
    } else {
      Heard(s, p);
    }
  }

  lemma QueryTokensDispatching(s: State, p: Step)
    requires InRange(s) && Enabled(s, p) && Dispatches(p) && QueryTokens(s)
    ensures QueryTokens(Apply(s, p))
  {
    StepInRange(s, p);
    hide InRange;
    CountThreads(s, p, OwingQuery());
    hide Count;
  }

  lemma QueryTokensAdvancing(s: State, p: Step)
    requires InRange(s) && Enabled(s, p) && !Serves(p) && !Dispatches(p) && QueryTokens(s)
    ensures QueryTokens(Apply(s, p))
  {
    StepInRange(s, p);
    hide InRange;
    CountThreads(s, p, OwingQuery());
    if p.Insert? {
      InSort(s.prio, s.ready + [s.threads[p.t].pc.query], 0);
    }
    if p.Tick? {
      InSort(Aged(s.prio, s.ready), s.ready, 0);
    }
    hide Count, Sort, Aged, Worst, FirstFree;
  }

  /** Query semaphore + token held or owed by the dispatcher + posts owed by handlers = waiting queries. */
  lemma QueryTokensStep(s: State, p: Step)
    requires InRange(s) && Enabled(s, p) && QueryTokens(s)
    ensures QueryTokens(Apply(s, p))
  {
    if Serves(p) {
      QueryTokensServing(s, p);
    } else if Dispatches(p) {
      QueryTokensDispatching(s, p);
    } else {
      QueryTokensAdvancing(s, p);
    }
  }

  lemma WorkerTokensServing(s: State, p: Step)
    requires InRange(s) && Enabled(s, p) && Serves(p)
    requires WorkerTokens(s) >= Count(s.workers, Free())
    ensures WorkerTokens(Apply(s, p)) >= Count(Apply(s, p).workers, Free())
  {
    hide Apply, InRange, Enabled, Count, FirstFree;
    CountThreads(s, p, OwingWorker());
    CountWorkers(s, p, Free());
    if p.QueryArrives? || p.WorkerArrives? {
      Arrived(s, p);
    } else {
      Heard(s, p);
    }
  }

  lemma WorkerTokensDispatching(s: State, p: Step)
    requires InRange(s) && Enabled(s, p) && Dispatches(p)
    requires WorkerTokens(s) >= Count(s.workers, Free())
    ensures WorkerTokens(Apply(s, p)) >= Count(Apply(s, p).workers, Free())
  {
    StepInRange(s, p);
    hide InRange;
    CountThreads(s, p, OwingWorker());
    CountWorkers(s, p, Free());
    hide Count, Sort, Aged, Worst, FirstFree;
  }

  lemma WorkerTokensAdvancing(s: State, p: Step)
    requires InRange(s) && Enabled(s, p) && !Serves(p) && !Dispatches(p)
    requires WorkerTokens(s) >= Count(s.workers, Free())
    ensures WorkerTokens(Apply(s, p)) >= Count(Apply(s, p).workers, Free())
  {
    StepInRange(s, p);
    hide InRange;
    CountThreads(s, p, OwingWorker());
    CountWorkers(s, p, Free());
    hide Count, Sort, Aged, Worst, FirstFree;
  }

  /** Worker tokens never fall below the number of free workers, whatever fails or disconnects. */
  lemma WorkerTokensStep(s: State, p: Step)
    requires InRange(s) && Enabled(s, p)
    requires WorkerTokens(s) >= Count(s.workers, Free())
    ensures WorkerTokens(Apply(s, p)) >= Count(Apply(s, p).workers, Free())
  {
    if Serves(p) {
      WorkerTokensServing(s, p);
    } else if Dispatches(p) {
      WorkerTokensDispatching(s, p);
    } else {
      WorkerTokensAdvancing(s, p);
    }
  }

  predicate ExactStep(p: Step) { !p.Disconnect? && p != Send(Refused) }

  // Each worker is in one of these; counted, because the three places are updated separately.
  function Registering(w: nat): Thread -> bool { (t: Thread) => t.pc.Registering? && t.role == Handler(w) }

  /** How many of "free", "executes a query", "reserved by the dispatcher" and "its handler is about
      to register it free" hold of worker w. */
  function Phases(s: State, w: nat): nat
    requires w < |s.workers|
  {
    (if s.workers[w].free then 1 else 0) + (if s.workers[w].running.Some? then 1 else 0) +
    (if s.dispatcher.Binding? && s.dispatcher.worker == w then 1 else 0) + Count(s.threads, Registering(w))
  }

  // No two threads handle the same worker.
  ghost predicate Apart(threads: seq<Thread>) {
    forall t, u :: 0 <= t < u < |threads| && threads[t].role.Handler? ==> threads[t].role != threads[u].role
  }

  // A handler that is not gone has a connected worker.
  ghost predicate Attached(threads: seq<Thread>, workers: seq<Worker>) {
    forall t :: 0 <= t < |threads| && threads[t].role.Handler? && !threads[t].pc.Gone? ==>
      threads[t].role.worker < |workers| && workers[threads[t].role.worker].connected
  }

  /** Every connected worker is in exactly one phase, handlers are one to a worker and end with it,
      and what the dispatcher is about to set or send is on the worker's record. */
  ghost predicate OnePhase(s: State)
    requires InRange(s)
  {
    && (forall w :: 0 <= w < |s.workers| && s.workers[w].connected ==> Phases(s, w) == 1)
    && Attached(s.threads, s.workers) && Apart(s.threads)
    && (s.dispatcher.Binding? ==> s.workers[s.dispatcher.worker].running.None?)
    && (s.dispatcher.Sending? && s.workers[s.dispatcher.worker].connected ==>
          s.workers[s.dispatcher.worker].running == Some(s.dispatcher.query))
  }

  ghost predicate PhaseKnown(s: State, w: nat)
    requires InRange(s)
  {
    && (w < |s.workers| && s.workers[w].connected ==> Phases(s, w) == 1)
    && (s.dispatcher.Binding? ==> s.workers[s.dispatcher.worker].running.None?)
    && (s.dispatcher.Sending? && s.workers[s.dispatcher.worker].connected ==>
          s.workers[s.dispatcher.worker].running == Some(s.dispatcher.query))
  }

  lemma RegisteringCounted(s: State, t: nat)
    requires InRange(s) && t < |s.threads| && s.threads[t].pc.Registering?
    ensures Count(s.threads, Registering(s.threads[t].role.worker)) >= 1
  {
    CountPositive(s.threads, t, Registering(s.threads[t].role.worker));
  }

  lemma NobodyRegisters(s: State, w: nat)
    requires InRange(s) && w >= |s.workers|
    ensures Count(s.threads, Registering(w)) == 0
  {
    if Count(s.threads, Registering(w)) >= 1 {
      var t := CountWitness(s.threads, Registering(w));
    }
  }

  lemma PhaseArriving(s: State, p: Step, w: nat)
    requires InRange(s) && Enabled(s, p) && (p.QueryArrives? || p.WorkerArrives?) && PhaseKnown(s, w)
    requires w < |Apply(s, p).workers| && Apply(s, p).workers[w].connected
    ensures Phases(Apply(s, p), w) == 1
  {
    hide Apply, Enabled, Count;
    Arrived(s, p);
    CountThreads(s, p, Registering(w));
    NobodyRegisters(s, |s.workers|);
    StepInRange(s, p);
    hide InRange;
  }

  lemma PhaseReporting(s: State, p: Step, w: nat)
    requires InRange(s) && Enabled(s, p) && (p.ReportEvicted? || p.ReportFinished? || p.Disconnect?) && PhaseKnown(s, w)
    requires w < |Apply(s, p).workers| && Apply(s, p).workers[w].connected
    ensures Phases(Apply(s, p), w) == 1
  {
    StepInRange(s, p);
    CountThreads(s, p, Registering(w));
    hide InRange, Count;
  }

  lemma PhaseDispatching(s: State, p: Step, w: nat)
    requires InRange(s) && Enabled(s, p) && Dispatches(p) && PhaseKnown(s, w)
    requires w < |Apply(s, p).workers| && Apply(s, p).workers[w].connected
    ensures Phases(Apply(s, p), w) == 1
  {
    StepInRange(s, p);
    hide InRange;
    CountThreads(s, p, Registering(w));
    WorkersAfter(s, p);
    hide Count, Sort, Aged, Worst, FirstFree;
  }

  lemma PhaseRegistered(s: State, t: nat, w: nat)
    requires InRange(s) && Enabled(s, Register(t)) && PhaseKnown(s, w)
    requires w < |Apply(s, Register(t)).workers| && Apply(s, Register(t)).workers[w].connected
    ensures Phases(Apply(s, Register(t)), w) == 1
  {
    StepInRange(s, Register(t));
    CountThreads(s, Register(t), Registering(w));
    RegisteringCounted(s, t);
    hide InRange, Count;
  }

  lemma PhaseAdvancing(s: State, p: Step, w: nat)
    requires InRange(s) && Enabled(s, p) && !Serves(p) && !Dispatches(p) && !p.Register? && PhaseKnown(s, w)
    requires w < |Apply(s, p).workers| && Apply(s, p).workers[w].connected
    ensures Phases(Apply(s, p), w) == 1
  {
    hide Apply, Enabled, InRange, Count;
    CountThreads(s, p, Registering(w));
    Elsewhere(s, p);
  }

  // The steps of threads other than registering leave workers and dispatcher alone.
  lemma Elsewhere(s: State, p: Step)
    requires InRange(s) && Enabled(s, p) && !Serves(p) && !Dispatches(p) && !p.Register?
    ensures var r := Apply(s, p);
            var t := Actor(p).value;
            && r.workers == s.workers && r.dispatcher == s.dispatcher && t < |s.threads| == |r.threads|
            && !s.threads[t].pc.Registering? && !r.threads[t].pc.Registering?
  {
    StepInRange(s, p);
    hide InRange, Sort, Aged, Worst, FirstFree;
  }

  lemma PhaseStep(s: State, p: Step, w: nat)
    requires InRange(s) && Enabled(s, p) && PhaseKnown(s, w)
    requires w < |Apply(s, p).workers| && Apply(s, p).workers[w].connected
    ensures Phases(Apply(s, p), w) == 1
  {
    if p.QueryArrives? || p.WorkerArrives? {
      PhaseArriving(s, p, w);
    } else if Serves(p) {
      PhaseReporting(s, p, w);
    } else if Dispatches(p) {
      PhaseDispatching(s, p, w);
    } else if p.Register? {
      PhaseRegistered(s, p.t, w);
    } else {
      PhaseAdvancing(s, p, w);
    }
  }

  // Which workers are connected after a step, and what a disconnection leaves of its handler.
  lemma ConnectedAfter(s: State, p: Step)
    requires InRange(s) && Enabled(s, p)
    ensures var r := Apply(s, p);
            && |r.workers| >= |s.workers|
            && (forall w :: 0 <= w < |s.workers| ==>
                  (r.workers[w].connected <==> s.workers[w].connected && !(p.Disconnect? && s.threads[p.t].role == Handler(w))))
            && (forall w :: |s.workers| <= w < |r.workers| ==> r.workers[w].connected)
            && (p.Disconnect? ==> |r.threads| == |s.threads| && r.threads[p.t].pc.Gone?)
  {
    WorkersAfter(s, p);
    StepInRange(s, p);
    hide InRange, Count, Sort, Aged, Worst, FirstFree;
  }

  lemma StillApart(ts: seq<Thread>, us: seq<Thread>, n: nat)
    requires Apart(ts) && |ts| <= |us| <= |ts| + 1 && (forall t :: 0 <= t < |ts| ==> us[t].role == ts[t].role)
    requires forall t :: 0 <= t < |ts| && ts[t].role.Handler? ==> ts[t].role.worker < n
    requires |us| > |ts| ==> us[|ts|].role == Handler(n) || us[|ts|].role == Client
    ensures Apart(us)
  {
  }

  // A disconnection takes the one handler of its worker with it; otherwise workers stay connected.
  lemma StillAttached(ts: seq<Thread>, ws: seq<Worker>, us: seq<Thread>, xs: seq<Worker>, gone: Option<nat>)
    requires Apart(ts) && Attached(ts, ws) && |ts| <= |us| <= |ts| + 1 && |ws| <= |xs|
    requires forall t :: 0 <= t < |ts| ==> us[t].role == ts[t].role && (ts[t].pc.Gone? ==> us[t].pc.Gone?)
    requires |us| > |ts| ==> us[|ts|].role == Client || (us[|ts|].role == Handler(|ws|) && |xs| > |ws|)
    requires gone.Some? ==> gone.value < |ts| && us[gone.value].pc.Gone?
    requires forall w :: 0 <= w < |ws| && ws[w].connected && (gone.Some? ==> ts[gone.value].role != Handler(w)) ==> xs[w].connected
    requires forall w :: |ws| <= w < |xs| ==> xs[w].connected
    ensures Attached(us, xs)
  {
    forall t | 0 <= t < |us| && us[t].role.Handler? && !us[t].pc.Gone?
      ensures us[t].role.worker < |xs| && xs[us[t].role.worker].connected
    {
      if t < |ts| && gone.Some? && t != gone.value {
        assert ts[t].role != ts[gone.value].role;
      }
    }
  }

  lemma HandlersStep(s: State, p: Step)
    requires InRange(s) && Enabled(s, p) && OnePhase(s)
    ensures Attached(Apply(s, p).threads, Apply(s, p).workers) && Apart(Apply(s, p).threads)
  {
    hide Apply, Enabled, Phases, Apart, Attached;
    var r := Apply(s, p);
    StepInRange(s, p);
    ThreadsAfter(s, p);
    ConnectedAfter(s, p);
    assert forall t :: 0 <= t < |s.threads| ==> r.threads[t].role == s.threads[t].role && (s.threads[t].pc.Gone? ==> r.threads[t].pc.Gone?);
    assert forall t :: 0 <= t < |s.threads| && s.threads[t].role.Handler? ==> s.threads[t].role.worker < |s.workers|;
    hide *;
    StillApart(s.threads, r.threads, |s.workers|);
    StillAttached(s.threads, s.workers, r.threads, r.workers, if p.Disconnect? then Some(p.t) else None);
  }

  // Whoever is registered or reserved executes nothing.
  lemma RegisteredIdle(s: State, p: Step)
    requires InRange(s) && Enabled(s, p) && OnePhase(s)
    ensures p.Register? ==> s.workers[s.threads[p.t].role.worker].running.None?
    ensures p.Choose? && FirstFree(s.workers).Some? ==> s.workers[FirstFree(s.workers).value].running.None?
  {
    hide Count, FirstFree;
    if p.Register? {
      RegisteringCounted(s, p.t);
      assert Phases(s, s.threads[p.t].role.worker) == 1;
    }
    if p.Choose? && FirstFree(s.workers).Some? {
      assert Phases(s, FirstFree(s.workers).value) == 1;
    }
  }

  lemma DispatcherServing(s: State, p: Step)
    requires InRange(s) && Enabled(s, p) && Serves(p) && PhaseKnown(s, |s.workers|)
    ensures PhaseKnown(Apply(s, p), |Apply(s, p).workers|)
  {
    StepInRange(s, p);
    hide InRange;
    WorkersAfter(s, p);
    hide Count, Sort, Aged, Worst, FirstFree, OnePhase, Phases;
  }

  lemma DispatcherDispatching(s: State, p: Step)
    requires InRange(s) && Enabled(s, p) && Dispatches(p) && PhaseKnown(s, |s.workers|)
    requires p.Choose? && FirstFree(s.workers).Some? ==> s.workers[FirstFree(s.workers).value].running.None?
    ensures PhaseKnown(Apply(s, p), |Apply(s, p).workers|)
  {
    StepInRange(s, p);
    hide InRange;
    WorkersAfter(s, p);
    hide Count, Sort, Aged, Worst, FirstFree, OnePhase, Phases;
  }

  lemma DispatcherAdvancing(s: State, p: Step)
    requires InRange(s) && Enabled(s, p) && !Serves(p) && !Dispatches(p) && PhaseKnown(s, |s.workers|)
    requires p.Register? ==> s.workers[s.threads[p.t].role.worker].running.None?
    ensures PhaseKnown(Apply(s, p), |Apply(s, p).workers|)
  {
    StepInRange(s, p);
    hide InRange;
    WorkersAfter(s, p);
    hide Count, Sort, Aged, Worst, FirstFree, OnePhase, Phases;
  }

  lemma DispatcherStep(s: State, p: Step)
    requires InRange(s) && Enabled(s, p) && OnePhase(s)
    ensures PhaseKnown(Apply(s, p), |Apply(s, p).workers|)
  {
    RegisteredIdle(s, p);
    assert PhaseKnown(s, |s.workers|);
    hide Apply;
    if Serves(p) {
      DispatcherServing(s, p);
    } else if Dispatches(p) {
      DispatcherDispatching(s, p);
    } else {
      DispatcherAdvancing(s, p);
    }
  }

  /** In every interleaving, failures and disconnections included, each connected worker stays in
      exactly one phase; so a free worker executes nothing. */
  lemma OnePhaseStep(s: State, p: Step)
    requires InRange(s) && Enabled(s, p) && OnePhase(s)
    ensures OnePhase(Apply(s, p))
  {
    var r := Apply(s, p);
    HandlersStep(s, p);
    DispatcherStep(s, p);
    forall w | 0 <= w < |r.workers| && r.workers[w].connected ensures Phases(r, w) == 1 {
      PhaseStep(s, p, w);
    }
    hide Apply, Phases;
  }

  ghost predicate AllConnected(s: State) {
    forall w :: 0 <= w < |s.workers| ==> s.workers[w].connected
  }

  lemma AllConnectedStep(s: State, p: Step)
    requires InRange(s) && Enabled(s, p) && !p.Disconnect? && AllConnected(s)
    ensures AllConnected(Apply(s, p))
  {
    WorkersAfter(s, p);
    hide Count, Sort, Aged, Worst, FirstFree;
  }

  // Who is made free was not free before.
  ghost predicate FreesBusy(s: State, p: Step)
    requires InRange(s) && Enabled(s, p)
  {
    p.Register? || p == Send(NoPacket) ==>
      var w := Touched(s, p).value;
      w < |s.workers| && !s.workers[w].free
  }

  lemma OnlyBusyFreed(s: State, p: Step)
    requires InRange(s) && Enabled(s, p) && OnePhase(s) && AllConnected(s)
    ensures FreesBusy(s, p)
  {
    hide Count, Sort, Aged, Worst, FirstFree;
    if p.Register? {
      RegisteringCounted(s, p.t);
      assert Phases(s, s.threads[p.t].role.worker) == 1;
    }
    if p == Send(NoPacket) {
      assert Phases(s, s.dispatcher.worker) == 1;
    }
  }

  lemma ExactTokensServing(s: State, p: Step)
    requires InRange(s) && Enabled(s, p) && Serves(p) && FreesBusy(s, p) && ExactStep(p) && AllConnected(s)
    requires WorkerTokens(s) == Count(s.workers, Free())
    ensures WorkerTokens(Apply(s, p)) == Count(Apply(s, p).workers, Free())
  {
    hide Apply, InRange, Enabled, Count, FirstFree;
    CountThreads(s, p, OwingWorker());
    CountWorkers(s, p, Free());
    if p.QueryArrives? || p.WorkerArrives? {
      Arrived(s, p);
    } else {
      Heard(s, p);
    }
  }

  // What the dispatcher's steps on a worker do to worker tokens and to that worker.
  lemma TokensAssigned(s: State, p: Step)
    requires InRange(s) && Enabled(s, p) && (p.Choose? || p.Bind? || p.Send?) && p != Send(Refused)
    ensures var r := Apply(s, p);
            var w := Touched(s, p);
            && r.threads == s.threads && r.semWorkers == s.semWorkers && (w.Some? ==> w.value < |s.workers| == |r.workers|)
            && (w.None? ==> HeldWorker(r.dispatcher) == HeldWorker(s.dispatcher))
            && (p.Choose? && w.Some? ==>
                  Idles(s.workers[w.value]) && !Idles(r.workers[w.value]) && HeldWorker(s.dispatcher) == HeldWorker(r.dispatcher) + 1)
            && (p.Bind? ==>
                  Idles(r.workers[w.value]) == Idles(s.workers[w.value]) && HeldWorker(s.dispatcher) == HeldWorker(r.dispatcher))
            && (p == Send(NoPacket) ==>
                  && r.workers[w.value].free && r.workers[w.value].connected == s.workers[w.value].connected
                  && HeldWorker(r.dispatcher) == HeldWorker(s.dispatcher) + 1)
  {
    StepInRange(s, p);
    hide InRange;
  }

  // The dispatcher's steps on a worker, and its other steps.
  lemma ExactTokensAssigning(s: State, p: Step)
    requires InRange(s) && Enabled(s, p) && (p.Choose? || p.Bind? || p.Send?) && FreesBusy(s, p) && ExactStep(p) && AllConnected(s)
    requires WorkerTokens(s) == Count(s.workers, Free())
    ensures WorkerTokens(Apply(s, p)) == Count(Apply(s, p).workers, Free())
  {
    hide Apply, Enabled, InRange, Count, FirstFree, HeldWorker;
    TokensAssigned(s, p);
    CountWorkers(s, p, Free());
  }

  lemma ExactTokensDispatching(s: State, p: Step)
    requires InRange(s) && Enabled(s, p) && Dispatches(p) && FreesBusy(s, p) && ExactStep(p) && AllConnected(s)
    requires WorkerTokens(s) == Count(s.workers, Free())
    ensures WorkerTokens(Apply(s, p)) == Count(Apply(s, p).workers, Free())
  {
    hide InRange, Count, FirstFree, AllConnected, FreesBusy, WorkerTokens;
    if p.Choose? || p.Bind? || p.Send? {
      ExactTokensAssigning(s, p);
      hide Apply, Enabled;
    } else {
      ExactTokensTaking(s, p);
      hide Apply, Enabled;
    }
  }

  lemma ExactTokensTaking(s: State, p: Step)
    requires InRange(s) && Enabled(s, p) && Dispatches(p) && !p.Choose? && !p.Bind? && !p.Send?
    requires WorkerTokens(s) == Count(s.workers, Free())
    ensures WorkerTokens(Apply(s, p)) == Count(Apply(s, p).workers, Free())
  {
    hide InRange, Count, FirstFree;
  }

  lemma ExactTokensAdvancing(s: State, p: Step)
    requires InRange(s) && Enabled(s, p) && !Serves(p) && !Dispatches(p) && FreesBusy(s, p) && ExactStep(p) && AllConnected(s)
    requires WorkerTokens(s) == Count(s.workers, Free())
    ensures WorkerTokens(Apply(s, p)) == Count(Apply(s, p).workers, Free())
  {
    StepInRange(s, p);
    hide InRange;
    CountThreads(s, p, OwingWorker());
    CountWorkers(s, p, Free());
    hide Count, Sort, Aged, Worst, FirstFree;
  }

  /** Without disconnections and refused sends there are exactly as many worker tokens as free workers. */
  lemma ExactTokensStep(s: State, p: Step)
    requires InRange(s) && Enabled(s, p) && OnePhase(s) && ExactStep(p) && AllConnected(s)
    requires WorkerTokens(s) == Count(s.workers, Free())
    ensures WorkerTokens(Apply(s, p)) == Count(Apply(s, p).workers, Free())
  {
    OnlyBusyFreed(s, p);
    if Serves(p) {
      ExactTokensServing(s, p);
    } else if Dispatches(p) {
      ExactTokensDispatching(s, p);
    } else {
      ExactTokensAdvancing(s, p);
    }
  }

  ghost predicate Balanced(s: State)
    requires InRange(s)
  {
    QueryTokens(s) && OnePhase(s) && WorkerTokens(s) >= Count(s.workers, Free())
  }

  lemma InitiallyBalanced(s: State)
    requires Initial(s)
    ensures InRange(s) && Balanced(s) && WorkerTokens(s) == Count(s.workers, Free())
  {
    forall f ensures Count(s.threads, f) == if s.threads != [] && f(s.threads[0]) then 1 else 0 {
    }
  }

  lemma {:induction false} BalancedRun(s: State, run: seq<Step>)
    requires InRange(s) && Balanced(s) && Legal(s, run)
    ensures Balanced(After(s, run))
    decreases |run|
  {
    if run != [] {
      QueryTokensStep(s, run[0]);
      WorkerTokensStep(s, run[0]);
      OnePhaseStep(s, run[0]);
      hide Balanced, Apply;
      BalancedRun(Apply(s, run[0]), run[1..]);
    }
  }

  // Nobody stands between changing the queue or a worker and the matching post.
  ghost predicate NobodyOwes(s: State) {
    forall t :: 0 <= t < |s.threads| ==> !s.threads[t].pc.OwesQuery? && !s.threads[t].pc.OwesWorker?
  }

  /** No lost wake-ups, in every run: the "queue empty" branch is never taken; if no handler is about
      to post, a dispatcher blocked on queries means no waiting query, and one blocked on workers
      means no free worker; and a free worker executes nothing. */
  lemma NoLostWakeups(start: State, run: seq<Step>)
    requires Initial(start) && InRange(start) && Legal(start, run)
    ensures var s := After(start, run);
            && (s.dispatcher.Taking? ==> s.ready != [])
            && (NobodyOwes(s) && s.dispatcher.WaitQuery? && !Enabled(s, WaitForQuery) ==> s.ready == [])
            && (NobodyOwes(s) && s.dispatcher.WaitWorker? && !Enabled(s, WaitForWorker) ==> NoneFree(s.workers))
            && forall w :: 0 <= w < |s.workers| && Idles(s.workers[w]) ==> s.workers[w].running.None?
  {
    InitiallyBalanced(start);
    BalancedRun(start, run);
    Settled(After(start, run));
    hide *;
  }

  ghost predicate NoneFree(workers: seq<Worker>) {
    forall w :: 0 <= w < |workers| ==> !Idles(workers[w])
  }

  lemma Settled(s: State)
    requires InRange(s) && Balanced(s)
    ensures s.dispatcher.Taking? ==> s.ready != []
    ensures NobodyOwes(s) && s.dispatcher.WaitQuery? && !Enabled(s, WaitForQuery) ==> s.ready == []
    ensures NobodyOwes(s) && s.dispatcher.WaitWorker? && !Enabled(s, WaitForWorker) ==> NoneFree(s.workers)
    ensures forall w :: 0 <= w < |s.workers| && Idles(s.workers[w]) ==> s.workers[w].running.None?
  {
    hide Count;
    forall w | 0 <= w < |s.workers| && Idles(s.workers[w])
      ensures Count(s.workers, Free()) >= 1
      ensures s.workers[w].running.None?
    {
      CountPositive(s.workers, w, Free());
      assert Phases(s, w) == 1;
    }
    if NobodyOwes(s) {
      NothingOwed(s);
    }
  }

  lemma NothingOwed(s: State)
    requires NobodyOwes(s)
    ensures Count(s.threads, OwingQuery()) == 0 && Count(s.threads, OwingWorker()) == 0
  {
    if Count(s.threads, OwingQuery()) >= 1 {
      var t := CountWitness(s.threads, OwingQuery());
    }
    if Count(s.threads, OwingWorker()) >= 1 {
      var t := CountWitness(s.threads, OwingWorker());
    }
  }

  lemma {:induction false} ExactRun(s: State, run: seq<Step>)
    requires InRange(s) && OnePhase(s) && Legal(s, run) && forall k :: 0 <= k < |run| ==> ExactStep(run[k])
    requires AllConnected(s) && WorkerTokens(s) == Count(s.workers, Free())
    ensures WorkerTokens(After(s, run)) == Count(After(s, run).workers, Free())
    decreases |run|
  {
    if run != [] {
      OnePhaseStep(s, run[0]);
      ExactTokensStep(s, run[0]);
      AllConnectedStep(s, run[0]);
      hide OnePhase, AllConnected, Apply, WorkerTokens;
      ExactRun(Apply(s, run[0]), run[1..]);
    }
  }

  /** In runs without disconnections and refused sends the dispatcher always finds a free worker for
      the query it popped: the "no free worker" branch is never taken. */
  lemma AlwaysFindsWorker(start: State, run: seq<Step>)
    requires Initial(start) && InRange(start) && Legal(start, run) && forall k :: 0 <= k < |run| ==> ExactStep(run[k])
    ensures var s := After(start, run);
            && WorkerTokens(s) == Count(s.workers, Free())
            && (s.dispatcher.Choosing? ==> FirstFree(s.workers).Some?)
  {
    InitiallyBalanced(start);
    ExactRun(start, run);
    var s := After(start, run);
    if s.dispatcher.Choosing? {
      var w := CountWitness(s.workers, Free());
      FirstIsFirst(s.workers, Free());
    }
  }
}
