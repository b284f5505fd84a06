/** The Master's scheduling functions as the sequential code they are, with ghost program counters:
    each is proved to be a legal run of the interleaved machine, so what is proved of every run of
    the machine holds of the code. */
module MasterScheduler {
  import opened Common
  import opened ReadyQueue
  import opened Scheduler
  import opened SchedulerRuns
  import opened SchedulerFunctions
  import opened SchedulerOrder

  class Master {
    const priorities: bool
    var prio: seq<int>
    var ready: seq<Qid>
    var workers: seq<Worker>
    var semQueries: nat
    var semWorkers: nat
    var finished: set<Qid>
    var requests: set<(nat, Qid)>
    ghost var threads: seq<Thread>
    ghost var dispatcher: Dispatcher

    ghost function View(): State
      reads this
    {
      State(priorities, prio, ready, workers, threads, dispatcher, semQueries, semWorkers, finished, requests)
    }

    constructor (priorities: bool)
      ensures this.priorities == priorities && Initial(View())
    {
      this.priorities := priorities;
      prio, ready, workers := [], [], [];
      semQueries, semWorkers := 0, 0;
      finished, requests := {}, {};
      threads := if priorities then [Thread(Aging, Idle)] else [];
      dispatcher := WaitQuery;
    }

    // buscar_peor_query_en_ejecucion
    method FindWorstRunning() returns (worst: Option<nat>)
      ensures worst == Worst(prio, workers)
    {
      worst := None;
      var i := 0;
      while i < |workers|
        invariant 0 <= i <= |workers|
        invariant worst == Worst(prio, workers[..i])
      {
        var w := workers[i];
        if !w.free && w.running.Some? && w.connected {
          if worst.None? || Priority(prio, w.running.value) > Priority(prio, workers[worst.value].running.value) {
            worst := Some(i);
          }
        }
        i := i + 1;
        assert workers[..i][..i - 1] == workers[..i - 1];
      }
      assert workers[..i] == workers;
    }

    // The second half of verificar_desalojo: the worst running query against the best waiting one.
    method AskEviction(ghost t: nat, best: Qid, sent: bool) returns (ghost run: seq<Step>)
      requires InRange(View()) && t < |threads| && threads[t].pc == Searching(best)
      modifies `requests, `threads
      ensures Legal(old(View()), run) && After(old(View()), run) == View()
      ensures threads == old(threads)[t := old(threads)[t].(pc := Idle)]
      ensures var on := Worst(prio, workers);
              requests == if sent && on.Some? && Priority(prio, best) < Executed(prio, workers[on.value])
                          then old(requests) + {(on.value, workers[on.value].running.value)} else old(requests)
      ensures OnlyBy(run, Some(t))
    {
      hide Legal, After, InRange, Worst, Apply, Enabled;
      ghost var start := View();
      WorstFound(start, t, best);
      OneStep(start, FindWorst(t));
      run := [FindWorst(t)];
      var on := FindWorstRunning();
      if on.None? {
        threads := threads[t := threads[t].(pc := Idle)];
        return;
      }
      var worst := workers[on.value].running.value;
      threads := threads[t := threads[t].(pc := Comparing(best, worst, on.value))];
      assert View() == After(start, run);
      Compared(View(), t, best, worst, on.value, sent);
      Longer(start, run, Compare(t, sent));
      run := run + [Compare(t, sent)];
      if Priority(prio, best) < Priority(prio, worst) && sent {
        requests := requests + {(on.value, worst)};
      }
      threads := threads[t := threads[t].(pc := Idle)];
    }

    /** verificar_desalojo: on a sorted queue, a running query of worst priority is asked to leave if and only
        if some waiting query is strictly better than some running one. */
    method CheckPreemption(ghost t: nat, sent: bool) returns (ghost run: seq<Step>)
      requires InRange(View()) && t < |threads| && threads[t].pc == Checking
      modifies `requests, `threads
      ensures Legal(old(View()), run) && After(old(View()), run) == View()
      ensures threads == old(threads)[t := old(threads)[t].(pc := Idle)]
      ensures requests == Asked(prio, ready, workers, sent, old(requests))
      ensures Ordered(prio, ready) ==> Asks(prio, ready, workers, sent, old(requests), requests)
      ensures OnlyBy(run, Some(t))
    {
      if Ordered(prio, ready) { AskedAsks(prio, ready, workers, sent, requests); }
      AskedIs(prio, ready, workers, sent, requests);
      hide Legal, After, InRange, Apply, Enabled, Worst, Ordered, Asks, Asked;
      ghost var start := View();
      HeadRead(start, t);
      OneStep(start, ReadHead(t));
      run := [ReadHead(t)];
      if ready == [] {
        threads := threads[t := threads[t].(pc := Idle)];
        return;
      }
      var best := ready[0];
      threads := threads[t := threads[t].(pc := Searching(best))];
      assert View() == After(start, run);
      ghost var rest := AskEviction(t, best, sent);
      Joined(start, run, rest);
      run := run + rest;
    }

    // The loop of aging_ready over the waiting queries.
    method AgeWaiting()
      modifies `prio
      ensures prio == Aged(old(prio), ready)
    {
      var i := 0;
      while i < |ready|
        invariant 0 <= i <= |ready|
        invariant prio == Aged(old(prio), ready[..i])
      {
        var q := ready[i];
        if Priority(prio, q) > 0 {
          prio := prio[q := prio[q] - 1];
        }
        i := i + 1;
        assert ready[..i][..i - 1] == ready[..i - 1];
      }
      assert ready[..i] == ready;
    }

    // aging_ready, one period
    method AgingTick(ghost t: nat, sent: bool) returns (ghost run: seq<Step>)
      requires priorities && InRange(View()) && t < |threads| && threads[t] == Thread(Aging, Idle)
      modifies `prio, `ready, `requests, `threads
      ensures Legal(old(View()), run) && After(old(View()), run) == View()
      ensures prio == Aged(old(prio), old(ready)) && ready == Sort(prio, old(ready))
      ensures Asks(prio, ready, workers, sent, old(requests), requests) && threads == old(threads)
      ensures OnlyBy(run, Some(t))
    {
      SortSorts(Aged(prio, ready), ready);
      hide Legal, After, InRange, Sort, Aged, Serve, Dispatch, Ordered, Asks, Asked;
      ghost var start := View();
      AgeWaiting();
      OneStep(start, Tick(t));
      ready := Sort(prio, ready);
      threads := threads[t := threads[t].(pc := Checking)];
      run := [Tick(t)];
      assert View() == After(start, run);
      ghost var rest := CheckPreemption(t, sent);
      Joined(start, run, rest);
      run := run + rest;
    }

    // agregar_query_ready_fifo
    method AddReady(ghost t: nat, q: Qid, sent: bool) returns (ghost run: seq<Step>)
      requires InRange(View()) && t < |threads| && threads[t].pc == Inserting(q)
      modifies `ready, `semQueries, `requests, `threads
      ensures Legal(old(View()), run) && After(old(View()), run) == View()
      ensures ready == (if priorities then Sort(prio, old(ready) + [q]) else old(ready) + [q])
      ensures semQueries == old(semQueries) + 1
      ensures threads == old(threads)[t := old(threads)[t].(pc := Idle)]
      ensures if priorities then Asks(prio, ready, workers, sent, old(requests), requests) else requests == old(requests)
      ensures OnlyBy(run, Some(t))
    {
      SortSorts(prio, ready + [q]);
      hide Legal, After, InRange, Sort, Apply, Enabled, Ordered, Asks, Asked;
      ghost var start := View();
      QueryAdded(start, t, q);
      run := [Insert(t), PostQuery(t)];
      ready := ready + [q];
      if priorities {
        ready := Sort(prio, ready);
      }
      semQueries := semQueries + 1;
      threads := threads[t := threads[t].(pc := if priorities then Checking else Idle)];
      assert View() == After(start, run);
      if priorities {
        ghost var rest := CheckPreemption(t, sent);
        Joined(start, run, rest);
        run := run + rest;
      }
    }

    // registrar_worker_libre
    method RegisterFree(ghost t: nat, w: nat) returns (ghost run: seq<Step>)
      requires InRange(View()) && t < |threads| && threads[t].pc.Registering? && threads[t].role == Handler(w)
      modifies `workers, `semWorkers, `threads
      ensures Legal(old(View()), run) && After(old(View()), run) == View()
      ensures |workers| == |old(workers)| && workers == old(workers)[w := old(workers)[w].(free := true, running := None)]
      ensures semWorkers == old(semWorkers) + 1
      ensures threads == old(threads)[t := Thread(Handler(w), Resume(old(threads)[t].pc.rest))]
      ensures OnlyBy(run, Some(t))
    {
      assert w < |workers|;
      hide Legal, After, InRange, Serve, Dispatch;
      ghost var start := View();
      OneStep(start, Register(t));
      run := [Register(t)];
      workers := workers[w := workers[w].(free := true, running := None)];
      threads := threads[t := threads[t].(pc := OwesWorker(threads[t].pc.rest))];
      assert View() == After(start, run);
      Longer(start, run, PostWorker(t));
      run := run + [PostWorker(t)];
      semWorkers := semWorkers + 1;
      threads := threads[t := threads[t].(pc := Resume(threads[t].pc.rest))];
    }

    // Both reports start by taking the query off the worker's record.
    method TakeBack(ghost t: nat, w: nat, qid: Qid, finished: bool) returns (ghost run: seq<Step>)
      requires InRange(View()) && Reporting(View(), t) && threads[t].role == Handler(w)
      requires workers[w].running == Some(qid)
      modifies `workers, `threads
      ensures Legal(old(View()), run) && After(old(View()), run) == View() && InRange(View())
      ensures run == [if finished then ReportFinished(t) else ReportEvicted(t)]
      ensures |workers| == |old(workers)| && workers == old(workers)[w := old(workers)[w].(running := None)]
      ensures threads == old(threads)[t := Thread(Handler(w), Registering(if finished then Close(qid) else Requeue(qid)))]
    {
      hide Legal, After, Advance, Dispatch;
      ghost var start := View();
      ghost var p := if finished then ReportFinished(t) else ReportEvicted(t);
      OneStep(start, p);
      run := [p];
      workers := workers[w := workers[w].(running := None)];
      threads := threads[t := threads[t].(pc := Registering(if finished then Close(qid) else Requeue(qid)))];
      assert View() == After(start, run);
    }

    // The query taken off the record, and the worker registered as free.
    method FreeWorker(ghost t: nat, w: nat, qid: Qid, finished: bool) returns (ghost run: seq<Step>)
      requires InRange(View()) && Reporting(View(), t) && threads[t].role == Handler(w)
      requires workers[w].running == Some(qid)
      modifies `workers, `semWorkers, `threads
      ensures Legal(old(View()), run) && After(old(View()), run) == View() && InRange(View())
      ensures run != [] && OnlyBy(run, Some(t))
      ensures |workers| == |old(workers)| && workers == old(workers)[w := old(workers)[w].(free := true, running := None)]
      ensures semWorkers == old(semWorkers) + 1
      ensures threads == old(threads)[t := Thread(Handler(w), if finished then Closing(qid) else Inserting(qid))]
    {
      assert OnlyBy([if finished then ReportFinished(t) else ReportEvicted(t)], Some(t));
      hide Legal, After, InRange, Apply, Enabled, Reporting, Listening, OnlyBy;
      ghost var start := View();
      run := TakeBack(t, w, qid, finished);
      ghost var freed := RegisterFree(t, w);
      Joined(start, run, freed);
      BothOnlyBy(run, freed, Some(t));
      run := run + freed;
    }

    // OP_QUERY_DESALOJADA: ignored unless it names the query the worker executes.
    method WorkerEvicted(ghost t: nat, w: nat, qid: Qid, sent: bool) returns (ghost run: seq<Step>)
      requires InRange(View()) && Listening(View(), t) && threads[t].role == Handler(w)
      requires workers[w].running == Some(qid) ==> Reporting(View(), t)
      modifies `ready, `workers, `semQueries, `semWorkers, `requests, `threads
      ensures Legal(old(View()), run) && After(old(View()), run) == View()
      ensures run == [] <==> !Names(old(workers), w, qid)
      ensures !Names(old(workers), w, qid) ==> View() == old(View())
      ensures Names(old(workers), w, qid) ==>
                && workers == old(workers)[w := old(workers)[w].(free := true, running := None)]
                && ready == (if priorities then Sort(prio, old(ready) + [qid]) else old(ready) + [qid])
                && semWorkers == old(semWorkers) + 1 && semQueries == old(semQueries) + 1 && threads == old(threads)
                && if priorities then Asks(prio, ready, workers, sent, old(requests), requests) else requests == old(requests)
      ensures OnlyBy(run, Some(t))
    {
      ghost var start := View();
      run := [];
      if workers[w].running != Some(qid) {
        Unfold(start, run);
        return;
      }
      assert threads[t := Thread(Handler(w), Idle)] == threads;
      hide Legal, After, InRange, Apply, Reporting, Listening, Sort, OnlyBy, Asks;
      run := FreeWorker(t, w, qid, false);
      ghost var added := AddReady(t, qid, sent);
      Joined(start, run, added);
      BothOnlyBy(run, added, Some(t));
      run := run + added;
    }

    // OP_FIN_QUERY: ignored unless it names the query the worker executes.
    method WorkerFinished(ghost t: nat, w: nat, qid: Qid) returns (ghost run: seq<Step>)
      requires InRange(View()) && Listening(View(), t) && threads[t].role == Handler(w)
      requires workers[w].running == Some(qid) ==> Reporting(View(), t)
      modifies `finished, `workers, `semWorkers, `threads
      ensures Legal(old(View()), run) && After(old(View()), run) == View()
      ensures run == [] <==> !Names(old(workers), w, qid)
      ensures !Names(old(workers), w, qid) ==> View() == old(View())
      ensures Names(old(workers), w, qid) ==>
                && finished == old(finished) + {qid}
                && workers == old(workers)[w := old(workers)[w].(free := true, running := None)]
                && semWorkers == old(semWorkers) + 1 && threads == old(threads)
      ensures OnlyBy(run, Some(t))
    {
      ghost var start := View();
      run := [];
      if workers[w].running != Some(qid) {
        Unfold(start, run);
        return;
      }
      assert OnlyBy([Notify(t)], Some(t));
      assert threads[t := Thread(Handler(w), Idle)] == threads;
      hide Legal, After, InRange, Apply, Enabled, Reporting, Listening, OnlyBy;
      run := FreeWorker(t, w, qid, true);
      EndQuery(start, t, qid, run);
      BothOnlyBy(run, [Notify(t)], Some(t));
      run := run + [Notify(t)];
      finished := finished + {qid};
      threads := threads[t := threads[t].(pc := Idle)];
    }

    // enviar_fin_query as the last step of a run.
    ghost method EndQuery(start: State, t: nat, qid: Qid, run: seq<Step>)
      requires InRange(start) && Legal(start, run) && After(start, run) == View()
      requires t < |threads| && threads[t].pc == Closing(qid)
      ensures Legal(start, run + [Notify(t)])
      ensures After(start, run + [Notify(t)]) == View().(finished := finished + {qid}, threads := threads[t := threads[t].(pc := Idle)])
    {
      hide Legal, After, InRange;
      Longer(start, run, Notify(t));
    }

    // manejar_desconexion_worker
    method WorkerLost(ghost t: nat, w: nat)
      requires InRange(View()) && Listening(View(), t) && threads[t].role == Handler(w)
      modifies `finished, `workers, `threads
      ensures View() == Apply(old(View()), Disconnect(t))
    {
      if workers[w].running.Some? {
        finished := finished + {workers[w].running.value};
      }
      workers := workers[w := workers[w].(connected := false, running := None)];
      threads := threads[t := threads[t].(pc := Gone)];
    }

    // OP_HELLO_QUERY: crear_query takes the next qid.
    method QueryArrives(priority: int, sent: bool) returns (qid: Qid, ghost run: seq<Step>)
      requires InRange(View()) && |prio| < U32
      modifies `prio, `ready, `semQueries, `requests, `threads
      ensures Legal(old(View()), run) && After(old(View()), run) == View()
      ensures qid == |old(prio)| && prio == old(prio) + [priority]
      ensures ready == (if priorities then Sort(prio, old(ready) + [qid]) else old(ready) + [qid])
      ensures semQueries == old(semQueries) + 1 && threads == old(threads) + [Thread(Client, Idle)]
      ensures if priorities then Asks(prio, ready, workers, sent, old(requests), requests) else requests == old(requests)
      ensures run != [] && run[0] == Step.QueryArrives(priority) && OnlyBy(run[1..], Some(|old(threads)|))
    {
      hide Legal, After, InRange, Sort, Advance, Dispatch, Asks;
      ghost var start := View();
      OneStep(start, Step.QueryArrives(priority));
      run := [Step.QueryArrives(priority)];
      qid := |prio|;
      prio := prio + [priority];
      threads := threads + [Thread(Client, Inserting(qid))];
      assert View() == After(start, run);
      ghost var added := AddReady(|threads| - 1, qid, sent);
      Joined(start, run, added);
      assert (run + added)[1..] == added;
      run := run + added;
    }

    // OP_HELLO_WORKER
    method WorkerArrives() returns (ghost run: seq<Step>)
      requires InRange(View())
      modifies `workers, `semWorkers, `threads
      ensures Legal(old(View()), run) && After(old(View()), run) == View()
      ensures run == [Step.WorkerArrives, PostWorker(|old(threads)|)]
      ensures workers == old(workers) + [Worker(true, true, None)] && semWorkers == old(semWorkers) + 1
      ensures threads == old(threads) + [Thread(Handler(|old(workers)|), Idle)]
    {
      hide Legal, After, InRange;
      ghost var start := View();
      OneStep(start, Step.WorkerArrives);
      run := [Step.WorkerArrives];
      threads := threads + [Thread(Handler(|workers|), OwesWorker(Nothing))];
      workers := workers + [Worker(true, true, None)];
      assert View() == After(start, run);
      Longer(start, run, PostWorker(|threads| - 1));
      run := run + [PostWorker(|threads| - 1)];
      semWorkers := semWorkers + 1;
      threads := threads[|threads| - 1 := threads[|threads| - 1].(pc := Idle)];
    }

    // obtener_worker_libre
    method ObtainFreeWorker() returns (free: Option<nat>)
      modifies `workers
      ensures free == FirstFree(old(workers))
      ensures workers == if free.None? then old(workers) else old(workers)[free.value := old(workers)[free.value].(free := false)]
    {
      var i := 0;
      while i < |workers|
        invariant 0 <= i <= |workers|
        invariant workers == old(workers) && First(workers[..i], Free()).None?
      {
        assert workers[..i + 1][..i] == workers[..i];
        if workers[i].connected && workers[i].free {
          FirstOfPrefix(workers, i + 1, Free());
          workers := workers[i := workers[i].(free := false)];
          return Some(i);
        }
        i := i + 1;
      }
      assert workers[..i] == workers;
      return None;
    }

    // Puts a popped query back at the front and gives both tokens back.
    method PutBack(q: Qid) returns (ghost run: seq<Step>)
      requires InRange(View()) && dispatcher == Returning(q)
      modifies `ready, `semQueries, `semWorkers, `dispatcher
      ensures Legal(old(View()), run) && After(old(View()), run) == View() && dispatcher == WaitQuery
      ensures ready == [q] + old(ready) && run == Back() && ByDispatcher(run)
    {
      assert ByDispatcher([Step.PutBack] + [GiveBackQuery, GiveBackWorker]);
      hide Legal, After, InRange, Apply, Enabled, ByDispatcher;
      ghost var start := View();
      PutBackStep(start);
      OneStep(start, Step.PutBack);
      run := [Step.PutBack];
      ready := [q] + ready;
      dispatcher := RepostQuery;
      assert View() == After(start, run);
      ghost var given := GiveBack();
      Joined(start, run, given);
      run := run + given;
    }

    method GiveBack() returns (ghost run: seq<Step>)
      requires InRange(View()) && dispatcher == RepostQuery
      modifies `semQueries, `semWorkers, `dispatcher
      ensures Legal(old(View()), run) && After(old(View()), run) == View() && dispatcher == WaitQuery
      ensures run == [GiveBackQuery, GiveBackWorker]
    {
      hide Legal, After, InRange;
      TokensGivenBack(View());
      run := [GiveBackQuery, GiveBackWorker];
      semQueries := semQueries + 1;
      semWorkers := semWorkers + 1;
      dispatcher := WaitQuery;
    }

    // Reserves a free worker for the popped query.
    method Reserve(q: Qid) returns (w: Option<nat>)
      requires InRange(View()) && dispatcher == Choosing(q)
      modifies `workers, `dispatcher
      ensures View() == Apply(old(View()), Choose)
      ensures dispatcher == (if w.None? then Returning(q) else Binding(q, w.value)) && w == FirstFree(old(workers))
    {
      hide FirstFree;
      w := ObtainFreeWorker();
      dispatcher := if w.None? then Returning(q) else Binding(q, w.value);
    }

    // Sets `ejecutando`.
    method BindTo(q: Qid, w: nat)
      requires InRange(View()) && dispatcher == Binding(q, w)
      modifies `workers, `dispatcher
      ensures View() == Apply(old(View()), Bind)
      ensures dispatcher == Sending(q, w)
    {
      workers := workers[w := workers[w].(running := Some(q))];
      dispatcher := Sending(q, w);
    }

    // Builds the packet and sends it.
    method Deliver(q: Qid, w: nat, outcome: Sent)
      requires InRange(View()) && dispatcher == Sending(q, w)
      modifies `workers, `requests, `dispatcher
      ensures View() == Apply(old(View()), Send(outcome))
      ensures dispatcher == if outcome.Delivered? then WaitQuery else Returning(q)
    {
      if outcome.Delivered? {
        requests := set r <- requests | r.0 != w;
        dispatcher := WaitQuery;
      } else {
        if outcome.NoPacket? {
          workers := workers[w := workers[w].(free := true, running := None)];
        }
        dispatcher := Returning(q);
      }
    }

    // From the reserved worker to the end of the iteration.
    method SendTo(q: Qid, w: nat, outcome: Sent) returns (ghost run: seq<Step>)
      requires InRange(View()) && dispatcher == Binding(q, w)
      modifies `ready, `workers, `semQueries, `semWorkers, `requests, `dispatcher
      ensures Legal(old(View()), run) && After(old(View()), run) == View() && dispatcher == WaitQuery
      ensures run == [Bind, Send(outcome)] + if outcome.Delivered? then [] else Back()
      ensures ByDispatcher(run)
    {
      assert ByDispatcher([Bind, Send(outcome)]);
      hide Legal, After, InRange, Apply, ByDispatcher;
      ghost var start := View();
      run := BindAndSend(q, w, outcome);
      if !outcome.Delivered? {
        ghost var back := PutBack(q);
        Joined(start, run, back);
        BothByDispatcher(run, back);
        run := run + back;
      }
    }

    method BindAndSend(q: Qid, w: nat, outcome: Sent) returns (ghost run: seq<Step>)
      requires InRange(View()) && dispatcher == Binding(q, w)
      modifies `workers, `requests, `dispatcher
      ensures Legal(old(View()), run) && After(old(View()), run) == View() && run == [Bind, Send(outcome)]
      ensures dispatcher == if outcome.Delivered? then WaitQuery else Returning(q)
    {
      hide Legal, After, InRange, Apply;
      ghost var start := View();
      OneStep(start, Bind);
      BindTo(q, w);
      Longer(start, [Bind], Send(outcome));
      assert [Bind] + [Send(outcome)] == [Bind, Send(outcome)];
      run := [Bind, Send(outcome)];
      Deliver(q, w, outcome);
    }

    // planificador_fifo with the queue's head in hand.
    method Assign(q: Qid, outcome: Sent) returns (ghost run: seq<Step>)
      requires InRange(View()) && dispatcher == Choosing(q)
      modifies `ready, `workers, `semQueries, `semWorkers, `requests, `dispatcher
      ensures Legal(old(View()), run) && After(old(View()), run) == View() && dispatcher == WaitQuery
      ensures run == Assignment(old(workers), outcome) && ByDispatcher(run)
    {
      assert ByDispatcher([Choose]);
      hide Legal, After, InRange, Apply, ByDispatcher;
      ghost var start := View();
      OneStep(start, Choose);
      var w := Reserve(q);
      ghost var rest: seq<Step>;
      if w.None? {
        rest := PutBack(q);
      } else {
        rest := SendTo(q, w.value, outcome);
      }
      Joined(start, [Choose], rest);
      BothByDispatcher([Choose], rest);
      run := [Choose] + rest;
    }

    /** planificador_fifo: one iteration, both semaphores being positive. */
    method DispatchOne(outcome: Sent) returns (ghost run: seq<Step>)
      requires InRange(View()) && dispatcher == WaitQuery && semQueries > 0 && semWorkers > 0
      modifies `ready, `workers, `semQueries, `semWorkers, `requests, `dispatcher
      ensures Legal(old(View()), run) && After(old(View()), run) == View() && dispatcher == WaitQuery
      ensures run == Iteration(old(View()), outcome) && ByDispatcher(run)
      ensures View() == Iterated(old(View()), outcome)
    {
      assert ByDispatcher([WaitForQuery, WaitForWorker]);
      hide Legal, After, InRange, ByDispatcher, Iterated, Assignment;
      ghost var start := View();
      TokensTaken(start);
      run := [WaitForQuery, WaitForWorker];
      semQueries := semQueries - 1;
      semWorkers := semWorkers - 1;
      dispatcher := Taking;
      assert View() == After(start, run);
      ghost var rest := TakeHead(outcome);
      Joined(start, run, rest);
      BothByDispatcher(run, rest);
      run := run + rest;
      IterationEnds(start, outcome);
    }

    method TakeHead(outcome: Sent) returns (ghost run: seq<Step>)
      requires InRange(View()) && dispatcher == Taking
      modifies `ready, `workers, `semQueries, `semWorkers, `requests, `dispatcher
      ensures Legal(old(View()), run) && After(old(View()), run) == View() && dispatcher == WaitQuery
      ensures run == [Take] + (if old(ready) == [] then [GiveBackQuery, GiveBackWorker] else Assignment(old(workers), outcome))
      ensures ByDispatcher(run)
    {
      assert ByDispatcher([Take]) && ByDispatcher([GiveBackQuery, GiveBackWorker]);
      hide Legal, After, InRange, Serve, Advance, ByDispatcher, Assignment;
      ghost var start := View();
      OneStep(start, Take);
      run := [Take];
      ghost var rest: seq<Step>;
      if ready == [] {
        dispatcher := RepostQuery;
        assert View() == After(start, run);
        rest := GiveBack();
      } else {
        var q := ready[0];
        ready := ready[1..];
        dispatcher := Choosing(q);
        assert View() == After(start, run);
        rest := Assign(q, outcome);
      }
      Joined(start, run, rest);
      BothByDispatcher(run, rest);
      run := run + rest;
    }
  }

  // The record of worker w names qid as the query it executes.
  predicate Names(workers: seq<Worker>, w: nat, qid: Qid) {
    w < |workers| && workers[w].running == Some(qid)
  }

  predicate ByDispatcher(run: seq<Step>) {
    forall k :: 0 <= k < |run| ==> Dispatches(run[k])
  }

  lemma BothByDispatcher(a: seq<Step>, b: seq<Step>)
    requires ByDispatcher(a) && ByDispatcher(b)
    ensures ByDispatcher(a + b)
  {
  }

  lemma BothOnlyBy(a: seq<Step>, b: seq<Step>, actor: Option<nat>)
    requires OnlyBy(a, actor) && OnlyBy(b, actor)
    ensures OnlyBy(a + b, actor)
  {
  }

  predicate OnlyBy(run: seq<Step>, actor: Option<nat>) {
    forall k :: 0 <= k < |run| ==> Actor(run[k]) == actor
  }
}
