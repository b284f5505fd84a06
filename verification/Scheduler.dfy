/** The Master's scheduler as an interleaved state machine. One step is what one thread does between
    two points where another thread may run: a critical section, a semaphore operation, a message.
    The threads are the dispatcher, one handler per connected worker, one per Query Control, and the
    aging thread. */
module Scheduler {
  import opened Common
  import opened ReadyQueue

  type Qid = nat

  datatype Worker = Worker(connected: bool, free: bool, running: Option<Qid>)

  datatype Role = Client | Aging | Handler(worker: nat)

  /** What is left of the message a handler is serving once it has posted the worker token. */
  datatype Rest = Nothing | Requeue(query: Qid) | Close(query: Qid)

  /** Where a thread stands. */
  datatype Pc =
    | Idle                                          // waits for a message, or for the next tick
    | Registering(rest: Rest)                       // `ejecutando` cleared; about to set `libre`
    | OwesWorker(rest: Rest)                        // `libre` set; about to post the worker semaphore
    | Inserting(query: Qid)                         // about to lock the ready queue and add
    | OwesQuery                                     // added; about to post the query semaphore
    | Checking                                      // about to read the head of the ready queue
    | Searching(best: Qid)                          // about to look for the worst running query
    | Comparing(best: Qid, worst: Qid, on: nat)     // about to compare the two and ask for eviction
    | Closing(query: Qid)                           // about to notify the Query Control and free
    | Gone

  datatype Thread = Thread(role: Role, pc: Pc)

  datatype Dispatcher =
    | WaitQuery | WaitWorker
    | Taking                                        // holds both tokens; about to lock the queue
    | Choosing(query: Qid)                          // popped; about to look for a free worker
    | Binding(query: Qid, worker: nat)              // worker reserved; about to set `ejecutando`
    | Sending(query: Qid, worker: nat)              // about to build and send the packet
    | Returning(query: Qid)                         // about to put the query back at the front
    | RepostQuery | RepostWorker                    // about to give the tokens back

  datatype State = State(
    priorities: bool,                               // PRIORIDADES, otherwise FIFO
    prio: seq<int>,                                 // by qid; its length is the next qid
    ready: seq<Qid>,
    workers: seq<Worker>,
    threads: seq<Thread>,
    dispatcher: Dispatcher,
    semQueries: nat,
    semWorkers: nat,
    finished: set<Qid>,
    requests: set<(nat, Qid)>)                      // eviction messages a worker may still answer

  datatype Sent = Delivered | NoPacket | Refused

  datatype Step =
    | QueryArrives(priority: int)
    | WorkerArrives
    | Tick(t: nat)
    | ReportEvicted(t: nat) | ReportFinished(t: nat) | Disconnect(t: nat)
    | Register(t: nat) | PostWorker(t: nat) | Notify(t: nat)
    | Insert(t: nat) | PostQuery(t: nat)
    | ReadHead(t: nat) | FindWorst(t: nat) | Compare(t: nat, sent: bool)
    | WaitForQuery | WaitForWorker | Take | Choose | Bind | Send(outcome: Sent)
    | PutBack | GiveBackQuery | GiveBackWorker

  predicate Idles(w: Worker) { w.connected && w.free }

  function Free(): Worker -> bool { (w: Worker) => Idles(w) }

  // obtener_worker_libre: the first free worker of the list.
  function FirstFree(workers: seq<Worker>): (w: Option<nat>)
    ensures w.Some? ==> w.value < |workers| && Idles(workers[w.value])
    ensures forall k :: 0 <= k < |workers| && Idles(workers[k]) ==> w.Some? && w.value <= k
  {
    FirstIsFirst(workers, Free());
    First(workers, Free())
  }

  predicate Runs(w: Worker) { w.connected && !w.free && w.running.Some? }

  // buscar_peor_query_en_ejecucion: the first worker running a query of the largest priority number.
  function Worst(prio: seq<int>, workers: seq<Worker>): (w: Option<nat>)
    ensures w.Some? ==> w.value < |workers| && Runs(workers[w.value])
  {
    if workers == [] then None
    else
      var n := |workers| - 1;
      var before := Worst(prio, workers[..n]);
      if Runs(workers[n]) && (before.None? || Executed(prio, workers[n]) > Executed(prio, workers[before.value])) then Some(n)
      else before
  }

  // The priority of the query a worker executes.
  function Executed(prio: seq<int>, w: Worker): int
    requires w.running.Some?
  {
    Priority(prio, w.running.value)
  }

  lemma {:induction false} WorstIsWorst(prio: seq<int>, workers: seq<Worker>)
    ensures forall k :: 0 <= k < |workers| && Runs(workers[k]) ==> Worst(prio, workers).Some?
    ensures forall k :: 0 <= k < |workers| && Runs(workers[k]) ==>
              var w := Worst(prio, workers).value;
              Executed(prio, workers[k]) < Executed(prio, workers[w]) ||
              (Executed(prio, workers[k]) == Executed(prio, workers[w]) && w <= k)
  {
    if workers != [] {
      WorstIsWorst(prio, workers[..|workers| - 1]);
      assert forall k :: 0 <= k < |workers| - 1 ==> workers[..|workers| - 1][k] == workers[k];
    }
  }

  predicate InRange(s: State) {
    && (forall t :: 0 <= t < |s.threads| && s.threads[t].role.Handler? ==> s.threads[t].role.worker < |s.workers|)
    && (forall t :: 0 <= t < |s.threads| && s.threads[t].pc.Registering? ==> s.threads[t].role.Handler?)
    && (s.dispatcher.Binding? || s.dispatcher.Sending? ==> s.dispatcher.worker < |s.workers|)
  }

  predicate Initial(s: State) {
    && s.prio == [] && s.ready == [] && s.workers == []
    && (s.threads == [] || (s.priorities && s.threads == [Thread(Aging, Idle)]))
    && s.dispatcher == WaitQuery && s.semQueries == 0 && s.semWorkers == 0
    && s.finished == {} && s.requests == {}
  }

  /** The thread that takes the step; None for the dispatcher and for arrivals. */
  function Actor(p: Step): Option<nat> {
    match p
    case Tick(t) => Some(t)
    case ReportEvicted(t) => Some(t)
    case ReportFinished(t) => Some(t)
    case Disconnect(t) => Some(t)
    case Register(t) => Some(t)
    case PostWorker(t) => Some(t)
    case Notify(t) => Some(t)
    case Insert(t) => Some(t)
    case PostQuery(t) => Some(t)
    case ReadHead(t) => Some(t)
    case FindWorst(t) => Some(t)
    case Compare(t, _) => Some(t)
    case _ => None
  }

  // The handler of a connected worker that is between two messages.
  predicate Listening(s: State, t: nat)
    requires InRange(s)
  {
    t < |s.threads| && s.threads[t].pc.Idle? && s.threads[t].role.Handler? && s.workers[s.threads[t].role.worker].connected
  }

  // A worker reports on the query it executes, which it has only once the packet was sent.
  predicate Reporting(s: State, t: nat)
    requires InRange(s)
  {
    && Listening(s, t)
    && s.workers[s.threads[t].role.worker].running.Some?
    && !(s.dispatcher.Sending? && s.dispatcher.worker == s.threads[t].role.worker)
  }

  predicate Enabled(s: State, p: Step)
    requires InRange(s)
  {
    && (Actor(p).Some? ==> Actor(p).value < |s.threads|)
    && match p
       case QueryArrives(_) => |s.prio| < U32
       case WorkerArrives => true
       case Tick(t) => s.priorities && s.threads[t] == Thread(Aging, Idle)
       case ReportEvicted(t) => Reporting(s, t)
       case ReportFinished(t) => Reporting(s, t)
       case Disconnect(t) => Listening(s, t)
       case Register(t) => s.threads[t].pc.Registering?
       case PostWorker(t) => s.threads[t].pc.OwesWorker?
       case Notify(t) => s.threads[t].pc.Closing?
       case Insert(t) => s.threads[t].pc.Inserting?
       case PostQuery(t) => s.threads[t].pc.OwesQuery?
       case ReadHead(t) => s.threads[t].pc.Checking?
       case FindWorst(t) => s.threads[t].pc.Searching?
       case Compare(t, _) => s.threads[t].pc.Comparing?
       case WaitForQuery => s.dispatcher.WaitQuery? && s.semQueries > 0
       case WaitForWorker => s.dispatcher.WaitWorker? && s.semWorkers > 0
       case Take => s.dispatcher.Taking?
       case Choose => s.dispatcher.Choosing?
       case Bind => s.dispatcher.Binding?
       case Send(_) => s.dispatcher.Sending?
       case PutBack => s.dispatcher.Returning?
       case GiveBackQuery => s.dispatcher.RepostQuery?
       case GiveBackWorker => s.dispatcher.RepostWorker?
  }

  function At(s: State, t: nat, pc: Pc): (r: State)
    requires InRange(s) && t < |s.threads| && (pc.Registering? ==> s.threads[t].role.Handler?)
    ensures InRange(r)
  {
    s.(threads := s.threads[t := s.threads[t].(pc := pc)])
  }

  function SetWorker(s: State, w: nat, x: Worker): (r: State)
    requires InRange(s) && w < |s.workers|
    ensures InRange(r)
  {
    s.(workers := s.workers[w := x])
  }

  // The handler's next position once the worker token is posted.
  function Resume(rest: Rest): Pc {
    match rest
    case Nothing => Idle
    case Requeue(q) => Inserting(q)
    case Close(q) => Closing(q)
  }

  function Rearranged(s: State, prio: seq<int>, ready: seq<Qid>): seq<Qid> {
    if s.priorities then Sort(prio, ready) else ready
  }

  // Arrivals, and a message taken from a worker.
  predicate Serves(p: Step) {
    p.QueryArrives? || p.WorkerArrives? || p.ReportEvicted? || p.ReportFinished? || p.Disconnect?
  }

  // A step of the dispatcher.
  predicate Dispatches(p: Step) {
    Actor(p).None? && !Serves(p)
  }

  function Serve(s: State, p: Step): (r: State)
    requires InRange(s) && Enabled(s, p) && Serves(p)
    ensures InRange(r)
  {
    match p
    case QueryArrives(priority) =>
      s.(prio := s.prio + [priority], threads := s.threads + [Thread(Client, Inserting(|s.prio|))])
    case WorkerArrives =>
      s.(workers := s.workers + [Worker(true, true, None)],
         threads := s.threads + [Thread(Handler(|s.workers|), OwesWorker(Nothing))])
    case ReportEvicted(t) =>
      var w := s.threads[t].role.worker;
      At(SetWorker(s, w, s.workers[w].(running := None)), t, Registering(Requeue(s.workers[w].running.value)))
    case ReportFinished(t) =>
      var w := s.threads[t].role.worker;
      At(SetWorker(s, w, s.workers[w].(running := None)), t, Registering(Close(s.workers[w].running.value)))
    case Disconnect(t) =>
      var w := s.threads[t].role.worker;
      var ended := if s.workers[w].running.Some? then {s.workers[w].running.value} else {};
      At(SetWorker(s, w, s.workers[w].(connected := false, running := None)), t, Gone).(finished := s.finished + ended)
  }

  // Steps of registrar_worker_libre, agregar_query_ready_fifo, aging_ready, verificar_desalojo
  // and enviar_fin_query.
  function Advance(s: State, p: Step): (r: State)
    requires InRange(s) && Enabled(s, p) && !Serves(p) && !Dispatches(p)
    ensures InRange(r)
  {
    var t := Actor(p).value;
    match p
    case Tick(_) =>
      var prio := Aged(s.prio, s.ready);
      At(s, t, Checking).(prio := prio, ready := Sort(prio, s.ready))
    case Register(_) =>
      var w := s.threads[t].role.worker;
      At(SetWorker(s, w, s.workers[w].(free := true, running := None)), t, OwesWorker(s.threads[t].pc.rest))
    case PostWorker(_) => At(s, t, Resume(s.threads[t].pc.rest)).(semWorkers := s.semWorkers + 1)
    case Notify(_) => At(s, t, Idle).(finished := s.finished + {s.threads[t].pc.query})
    case Insert(_) => At(s, t, OwesQuery).(ready := Rearranged(s, s.prio, s.ready + [s.threads[t].pc.query]))
    case PostQuery(_) => At(s, t, if s.priorities then Checking else Idle).(semQueries := s.semQueries + 1)
    case ReadHead(_) => At(s, t, if s.ready == [] then Idle else Searching(s.ready[0]))
    case FindWorst(_) =>
      var w := Worst(s.prio, s.workers);
      At(s, t, if w.None? then Idle else Comparing(s.threads[t].pc.best, s.workers[w.value].running.value, w.value))
    case Compare(_, sent) =>
      var pc := s.threads[t].pc;
      var asks := Priority(s.prio, pc.best) < Priority(s.prio, pc.worst) && sent;
      At(s, t, Idle).(requests := if asks then s.requests + {(pc.on, pc.worst)} else s.requests)
  }

  // Steps of planificador_fifo.
  function Dispatch(s: State, p: Step): (r: State)
    requires InRange(s) && Enabled(s, p) && Dispatches(p)
    ensures InRange(r)
  {
    match p
    case WaitForQuery => s.(dispatcher := WaitWorker, semQueries := s.semQueries - 1)
    case WaitForWorker => s.(dispatcher := Taking, semWorkers := s.semWorkers - 1)
    case Take =>
      if s.ready == [] then s.(dispatcher := RepostQuery)
      else s.(dispatcher := Choosing(s.ready[0]), ready := s.ready[1..])
    case Choose =>
      var q := s.dispatcher.query;
      var w := FirstFree(s.workers);
      if w.None? then s.(dispatcher := Returning(q))
      else SetWorker(s, w.value, s.workers[w.value].(free := false)).(dispatcher := Binding(q, w.value))
    case Bind =>
      var w := s.dispatcher.worker;
      SetWorker(s, w, s.workers[w].(running := Some(s.dispatcher.query))).(dispatcher := Sending(s.dispatcher.query, w))
    case Send(Delivered) =>
      // The worker forgets earlier eviction messages when a query reaches it.
      s.(dispatcher := WaitQuery, requests := set r <- s.requests | r.0 != s.dispatcher.worker)
    case Send(NoPacket) =>
      var w := s.dispatcher.worker;
      SetWorker(s, w, s.workers[w].(free := true, running := None)).(dispatcher := Returning(s.dispatcher.query))
    case Send(Refused) => s.(dispatcher := Returning(s.dispatcher.query))
    case PutBack => s.(dispatcher := RepostQuery, ready := [s.dispatcher.query] + s.ready)
    case GiveBackQuery => s.(dispatcher := RepostWorker, semQueries := s.semQueries + 1)
    case GiveBackWorker => s.(dispatcher := WaitQuery, semWorkers := s.semWorkers + 1)
  }

  function Apply(s: State, p: Step): (r: State)
    requires InRange(s) && Enabled(s, p)
    ensures InRange(r)
  {
    if Serves(p) then Serve(s, p) else if Dispatches(p) then Dispatch(s, p) else Advance(s, p)
  }

  /** A run from s: every step enabled where it is taken. */
  ghost predicate Legal(s: State, run: seq<Step>)
    requires InRange(s)
    decreases |run|
  {
    run == [] || (Enabled(s, run[0]) && Legal(Apply(s, run[0]), run[1..]))
  }

  ghost function After(s: State, run: seq<Step>): (r: State)
    requires InRange(s) && Legal(s, run)
    ensures InRange(r)
    decreases |run|
  {
    if run == [] then s else After(Apply(s, run[0]), run[1..])
  }

  // Whom a step is about, and where it finds them.
  lemma StepInRange(s: State, p: Step)
    requires InRange(s) && Enabled(s, p)
    ensures p.ReportEvicted? || p.ReportFinished? || p.Disconnect? || p.Register? ==>
              s.threads[p.t].role.Handler? && s.threads[p.t].role.worker < |s.workers|
    ensures s.dispatcher.Binding? || s.dispatcher.Sending? ==> s.dispatcher.worker < |s.workers|
    ensures Actor(p).Some? ==> Actor(p).value < |s.threads| && !s.threads[Actor(p).value].pc.Gone?
    ensures p.Insert? ==> s.threads[p.t].pc.Inserting?
    ensures p.PutBack? ==> s.dispatcher.Returning?
    ensures p.Tick? ==> s.priorities
  {
  }

  // What an arrival brings.
  lemma Arrived(s: State, p: Step)
    requires InRange(s) && Enabled(s, p) && (p.QueryArrives? || p.WorkerArrives?)
    ensures var r := Apply(s, p);
            && r.ready == s.ready && r.dispatcher == s.dispatcher && r.finished == s.finished
            && r.semQueries == s.semQueries && r.semWorkers == s.semWorkers
            && (if p.QueryArrives? then
                  && r.prio == s.prio + [p.priority] && r.workers == s.workers
                  && r.threads == s.threads + [Thread(Client, Inserting(|s.prio|))]
                else
                  && r.prio == s.prio && r.workers == s.workers + [Worker(true, true, None)]
                  && r.threads == s.threads + [Thread(Handler(|s.workers|), OwesWorker(Nothing))])
  {
    hide InRange;
  }

  // What a message from a worker leaves as it was.
  lemma Heard(s: State, p: Step)
    requires InRange(s) && Enabled(s, p) && (p.ReportEvicted? || p.ReportFinished? || p.Disconnect?)
    ensures var r := Apply(s, p);
            var w := s.threads[p.t].role.worker;
            && p.t < |s.threads| == |r.threads| && s.threads[p.t].role.Handler? && w < |s.workers| == |r.workers|
            && r.ready == s.ready && r.dispatcher == s.dispatcher && r.semQueries == s.semQueries && r.semWorkers == s.semWorkers
            && s.threads[p.t].pc.Idle? && (if p.Disconnect? then r.threads[p.t].pc.Gone? else r.threads[p.t].pc.Registering?)
            && r.workers[w].free == s.workers[w].free && r.workers[w].running.None?
            && s.workers[w].connected && r.workers[w].connected == !p.Disconnect?
  {
    StepInRange(s, p);
    hide InRange;
  }

  lemma ThreadsServing(s: State, p: Step)
    requires InRange(s) && Enabled(s, p) && Serves(p)
    ensures var r := Apply(s, p);
            match Actor(p)
            case Some(t) => |r.threads| == |s.threads| && r.threads == s.threads[t := r.threads[t]] && r.threads[t].role == s.threads[t].role
            case None =>
              && |r.threads| == |s.threads| + 1 && r.threads == s.threads + [r.threads[|s.threads|]]
              && r.threads[|s.threads|].role == if p.WorkerArrives? then Handler(|s.workers|) else Client
  {
    StepInRange(s, p);
    hide InRange;
  }

  lemma ThreadsAdvancing(s: State, p: Step)
    requires InRange(s) && Enabled(s, p) && !Serves(p) && !Dispatches(p)
    ensures var r := Apply(s, p);
            var t := Actor(p).value;
            |r.threads| == |s.threads| && r.threads == s.threads[t := r.threads[t]] && r.threads[t].role == s.threads[t].role
  {
    StepInRange(s, p);
    hide InRange, Sort, Aged, Worst;
  }

  // A step changes at most the thread that takes it and the one it starts.
  lemma ThreadsAfter(s: State, p: Step)
    requires InRange(s) && Enabled(s, p)
    ensures var r := Apply(s, p);
            match Actor(p)
            case Some(t) => |r.threads| == |s.threads| && r.threads == s.threads[t := r.threads[t]] && r.threads[t].role == s.threads[t].role
            case None => r.threads == s.threads || (|r.threads| == |s.threads| + 1 && r.threads == s.threads + [r.threads[|s.threads|]])
    ensures var r := Apply(s, p);
            |r.threads| > |s.threads| ==> Serves(p) && r.threads[|s.threads|].role == if p.WorkerArrives? then Handler(|s.workers|) else Client
  {
    if Serves(p) {
      ThreadsServing(s, p);
      hide Apply, Enabled, InRange;
    } else if Dispatches(p) {
      hide InRange, FirstFree;
    } else {
      ThreadsAdvancing(s, p);
      hide Apply, Enabled, InRange;
    }
  }
}
