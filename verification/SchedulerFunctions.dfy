/** What the functions of the planner make of the state when no other thread comes in between. */
module SchedulerFunctions {
  import opened Common
  import opened ReadyQueue
  import opened Scheduler
  import opened SchedulerRuns

  // The dispatcher takes its two tokens, and gives them back.
  lemma TokensTaken(s: State)
    requires InRange(s) && s.dispatcher == WaitQuery && s.semQueries > 0 && s.semWorkers > 0
    ensures Legal(s, [WaitForQuery, WaitForWorker])
    ensures After(s, [WaitForQuery, WaitForWorker]) ==
            s.(dispatcher := Taking, semQueries := s.semQueries - 1, semWorkers := s.semWorkers - 1)
  {
    hide InRange, FirstFree;
    OneStep(s, WaitForQuery);
    Longer(s, [WaitForQuery], WaitForWorker);
    assert [WaitForQuery] + [WaitForWorker] == [WaitForQuery, WaitForWorker];
    hide Legal, After;
  }

  lemma TokensGivenBack(s: State)
    requires InRange(s) && s.dispatcher == RepostQuery
    ensures Legal(s, [GiveBackQuery, GiveBackWorker])
    ensures After(s, [GiveBackQuery, GiveBackWorker]) ==
            s.(dispatcher := WaitQuery, semQueries := s.semQueries + 1, semWorkers := s.semWorkers + 1)
  {
    hide InRange, FirstFree;
    OneStep(s, GiveBackQuery);
    Longer(s, [GiveBackQuery], GiveBackWorker);
    assert [GiveBackQuery] + [GiveBackWorker] == [GiveBackQuery, GiveBackWorker];
    hide Legal, After;
  }

  lemma PutBackStep(s: State)
    requires InRange(s) && s.dispatcher.Returning?
    ensures Enabled(s, PutBack) && Apply(s, PutBack) == s.(dispatcher := RepostQuery, ready := [s.dispatcher.query] + s.ready)
  {
    hide InRange, FirstFree;
  }

  // The state with thread t at pc.
  function Standing(s: State, t: nat, pc: Pc): State
    requires t < |s.threads|
  {
    s.(threads := s.threads[t := s.threads[t].(pc := pc)])
  }

  // The two steps of agregar_query_ready_fifo before it checks.
  lemma QueryAdded(s: State, t: nat, q: Qid)
    requires InRange(s) && t < |s.threads| && s.threads[t].pc == Inserting(q)
    ensures Legal(s, [Insert(t), PostQuery(t)])
    ensures After(s, [Insert(t), PostQuery(t)]) ==
            Standing(s, t, if s.priorities then Checking else Idle).(ready := Rearranged(s, s.prio, s.ready + [q]), semQueries := s.semQueries + 1)
  {
    hide InRange, Rearranged, FirstFree, Worst, Aged;
    OneStep(s, Insert(t));
    Longer(s, [Insert(t)], PostQuery(t));
    assert [Insert(t)] + [PostQuery(t)] == [Insert(t), PostQuery(t)];
    hide Legal, After;
  }

  // The three steps of verificar_desalojo.
  lemma HeadRead(s: State, t: nat)
    requires InRange(s) && t < |s.threads| && s.threads[t].pc == Checking
    ensures Enabled(s, ReadHead(t))
    ensures Apply(s, ReadHead(t)) == Standing(s, t, if s.ready == [] then Idle else Searching(s.ready[0]))
  {
    hide InRange, FirstFree, Worst, Sort, Aged;
  }

  lemma WorstFound(s: State, t: nat, best: Qid)
    requires InRange(s) && t < |s.threads| && s.threads[t].pc == Searching(best)
    ensures Enabled(s, FindWorst(t))
    ensures var on := Worst(s.prio, s.workers);
            Apply(s, FindWorst(t)) ==
            Standing(s, t, if on.None? then Idle else Comparing(best, s.workers[on.value].running.value, on.value))
  {
    hide InRange, FirstFree, Worst, Sort, Aged;
  }

  lemma Compared(s: State, t: nat, best: Qid, worst: Qid, on: nat, sent: bool)
    requires InRange(s) && t < |s.threads| && s.threads[t].pc == Comparing(best, worst, on)
    ensures Enabled(s, Compare(t, sent))
    ensures var asks := Priority(s.prio, best) < Priority(s.prio, worst) && sent;
            Apply(s, Compare(t, sent)) ==
            Standing(s, t, Idle).(requests := if asks then s.requests + {(on, worst)} else s.requests)
  {
    hide InRange, FirstFree, Worst, Sort, Aged;
  }

  // The steps that give a popped query and both tokens back, those of an assignment, and those of an iteration
  // of planificador_fifo.
  function Back(): seq<Step> { [PutBack, GiveBackQuery, GiveBackWorker] }

  function Assignment(workers: seq<Worker>, outcome: Sent): seq<Step> {
    [Choose] +
    if FirstFree(workers).None? then Back()
    else [Bind, Send(outcome)] + if outcome.Delivered? then [] else Back()
  }

  function Iteration(s: State, outcome: Sent): seq<Step> {
    [WaitForQuery, WaitForWorker] +
    ([Take] + if s.ready == [] then [GiveBackQuery, GiveBackWorker] else Assignment(s.workers, outcome))
  }

  /** What an iteration makes of the state. If a query waits and a worker is free, the head of the queue goes to
      the first free worker, the two tokens are used up, and that worker forgets earlier eviction messages.
      Otherwise nothing changes. If the packet cannot be built the worker's record alone is cleared; if it is
      refused the record alone is set, although the query is still at the head of the queue. */
  function Iterated(s: State, outcome: Sent): State
    requires s.semQueries > 0 && s.semWorkers > 0
  {
    var free := FirstFree(s.workers);
    if s.ready == [] || free.None? then s
    else
      var w, q := free.value, s.ready[0];
      match outcome
      case Delivered =>
        s.(ready := s.ready[1..], workers := s.workers[w := s.workers[w].(free := false, running := Some(q))],
           semQueries := s.semQueries - 1, semWorkers := s.semWorkers - 1, requests := set r <- s.requests | r.0 != w)
      case NoPacket => s.(workers := s.workers[w := s.workers[w].(free := true, running := None)])
      case Refused => s.(workers := s.workers[w := s.workers[w].(free := false, running := Some(q))])
  }

  // The states in which the steps of an iteration end.
  function TakenBack(s: State, q: Qid): State {
    s.(dispatcher := WaitQuery, ready := [q] + s.ready, semQueries := s.semQueries + 1, semWorkers := s.semWorkers + 1)
  }

  function SentTo(s: State, q: Qid, w: nat, outcome: Sent): State
    requires w < |s.workers|
  {
    var x := if outcome.NoPacket? then s.workers[w].(free := true, running := None) else s.workers[w].(running := Some(q));
    s.(dispatcher := if outcome.Delivered? then WaitQuery else Returning(q), workers := s.workers[w := x],
       requests := if outcome.Delivered? then set r <- s.requests | r.0 != w else s.requests)
  }

  function Reserved(s: State, q: Qid): State {
    var w := FirstFree(s.workers);
    if w.None? then s.(dispatcher := Returning(q))
    else s.(dispatcher := Binding(q, w.value), workers := s.workers[w.value := s.workers[w.value].(free := false)])
  }

  function Assigned(s: State, q: Qid, outcome: Sent): State {
    var w := FirstFree(s.workers);
    if w.None? then TakenBack(Reserved(s, q), q)
    else
      var b := SentTo(Reserved(s, q), q, w.value, outcome);
      if outcome.Delivered? then b else TakenBack(b, q)
  }

  lemma BackEnds(s: State, q: Qid)
    requires InRange(s) && s.dispatcher == Returning(q)
    ensures Legal(s, Back()) && After(s, Back()) == TakenBack(s, q)
  {
    BackUnfolds();
    hide InRange, Apply, Enabled, Legal, After, Back;
    PutBackStep(s);
    TokensGivenBack(s.(dispatcher := RepostQuery, ready := [q] + s.ready));
    Fold(s, PutBack, [GiveBackQuery, GiveBackWorker]);
  }

  lemma BackUnfolds()
    ensures Back() == [PutBack] + [GiveBackQuery, GiveBackWorker]
  {
  }

  lemma BindStep(s: State, q: Qid, w: nat)
    requires InRange(s) && s.dispatcher == Binding(q, w)
    ensures Enabled(s, Bind) && w < |s.workers|
    ensures Apply(s, Bind) == s.(dispatcher := Sending(q, w), workers := s.workers[w := s.workers[w].(running := Some(q))])
  {
    hide FirstFree;
  }

  lemma SendStep(s: State, q: Qid, w: nat, outcome: Sent)
    requires InRange(s) && s.dispatcher == Sending(q, w) && w < |s.workers| && s.workers[w].running == Some(q)
    ensures Enabled(s, Send(outcome)) && Apply(s, Send(outcome)) == SentTo(s, q, w, outcome)
  {
    assert s.workers[w := s.workers[w].(running := Some(q))] == s.workers;
    hide InRange, FirstFree;
  }

  lemma SentTwice(s: State, q: Qid, w: nat, outcome: Sent)
    requires w < |s.workers|
    ensures var a := s.(dispatcher := Sending(q, w), workers := s.workers[w := s.workers[w].(running := Some(q))]);
            SentTo(a, q, w, outcome) == SentTo(s, q, w, outcome)
  {
    var ws := s.workers[w := s.workers[w].(running := Some(q))];
    var x := SentTo(s, q, w, outcome).workers[w];
    assert ws[w := x] == s.workers[w := x];
  }

  lemma SendEnds(s: State, q: Qid, w: nat, outcome: Sent)
    requires InRange(s) && s.dispatcher == Binding(q, w)
    ensures w < |s.workers| && Legal(s, [Bind, Send(outcome)])
    ensures After(s, [Bind, Send(outcome)]) == SentTo(s, q, w, outcome)
  {
    BindStep(s, q, w);
    hide InRange, Apply, Enabled, Legal, After, SentTo;
    OneStep(s, Bind);
    SendStep(Apply(s, Bind), q, w, outcome);
    SentTwice(s, q, w, outcome);
    Longer(s, [Bind], Send(outcome));
    assert [Bind] + [Send(outcome)] == [Bind, Send(outcome)];
  }

  lemma ChooseStep(s: State, q: Qid)
    requires InRange(s) && s.dispatcher == Choosing(q)
    ensures Enabled(s, Choose) && Apply(s, Choose) == Reserved(s, q)
  {
    hide InRange, First;
  }

  lemma TakeStep(s: State)
    requires InRange(s) && s.dispatcher == Taking
    ensures Enabled(s, Take)
    ensures Apply(s, Take) ==
            if s.ready == [] then s.(dispatcher := RepostQuery) else s.(dispatcher := Choosing(s.ready[0]), ready := s.ready[1..])
  {
    hide InRange, FirstFree;
  }

  // From the reserved worker on.
  lemma SendingEnds(s: State, q: Qid, w: nat, outcome: Sent)
    requires InRange(s) && s.dispatcher == Binding(q, w)
    ensures w < |s.workers|
    ensures var rest := [Bind, Send(outcome)] + if outcome.Delivered? then [] else Back();
            var b := SentTo(s, q, w, outcome);
            Legal(s, rest) && After(s, rest) == if outcome.Delivered? then b else TakenBack(b, q)
  {
    hide *;
    SendEnds(s, q, w, outcome);
    if outcome.Delivered? {
      assert [Bind, Send(outcome)] + [] == [Bind, Send(outcome)];
    } else {
      SentReturns(s, q, w, outcome);
      BackEnds(SentTo(s, q, w, outcome), q);
      Joined(s, [Bind, Send(outcome)], Back());
    }
  }

  // From the popped query on.
  lemma AssignmentEnds(s: State, q: Qid, outcome: Sent)
    requires InRange(s) && s.dispatcher == Choosing(q)
    ensures Legal(s, Assignment(s.workers, outcome)) && After(s, Assignment(s.workers, outcome)) == Assigned(s, q, outcome)
  {
    hide InRange, Apply, Enabled, Legal, After, Back, Reserved, TakenBack, SentTo, FirstFree;
    ChooseStep(s, q);
    ReservedBinds(s, q);
    var a := Reserved(s, q);
    var w := FirstFree(s.workers);
    if w.None? {
      BackEnds(a, q);
      Fold(s, Choose, Back());
    } else {
      SendingEnds(a, q, w.value, outcome);
      Fold(s, Choose, [Bind, Send(outcome)] + if outcome.Delivered? then [] else Back());
    }
  }

  lemma ReservedBinds(s: State, q: Qid)
    ensures Reserved(s, q).dispatcher == match FirstFree(s.workers) { case None => Returning(q) case Some(w) => Binding(q, w) }
  {
    hide First;
  }

  lemma SentReturns(s: State, q: Qid, w: nat, outcome: Sent)
    requires w < |s.workers| && !outcome.Delivered?
    ensures SentTo(s, q, w, outcome).dispatcher == Returning(q)
  {
  }

  lemma AssignedIterates(s: State, outcome: Sent)
    requires s.dispatcher == WaitQuery && s.semQueries > 0 && s.semWorkers > 0 && s.ready != []
    ensures var b := s.(dispatcher := Choosing(s.ready[0]), ready := s.ready[1..], semQueries := s.semQueries - 1, semWorkers := s.semWorkers - 1);
            Assigned(b, s.ready[0], outcome) == Iterated(s, outcome)
  {
    assert [s.ready[0]] + s.ready[1..] == s.ready;
    hide First;
  }

  // From the lock on the queue on.
  lemma TakingEnds(s: State, outcome: Sent)
    requires InRange(s) && s.dispatcher == Taking
    ensures var rest := [Take] + if s.ready == [] then [GiveBackQuery, GiveBackWorker] else Assignment(s.workers, outcome);
            && Legal(s, rest)
            && After(s, rest) ==
               if s.ready == [] then s.(dispatcher := WaitQuery, semQueries := s.semQueries + 1, semWorkers := s.semWorkers + 1)
               else Assigned(s.(dispatcher := Choosing(s.ready[0]), ready := s.ready[1..]), s.ready[0], outcome)
  {
    TakeStep(s);
    hide *;
    if s.ready == [] {
      TokensGivenBack(s.(dispatcher := RepostQuery));
      Fold(s, Take, [GiveBackQuery, GiveBackWorker]);
    } else {
      AssignmentEnds(s.(dispatcher := Choosing(s.ready[0]), ready := s.ready[1..]), s.ready[0], outcome);
      Fold(s, Take, Assignment(s.workers, outcome));
    }
  }

  lemma IterationEnds(s: State, outcome: Sent)
    requires InRange(s) && s.dispatcher == WaitQuery && s.semQueries > 0 && s.semWorkers > 0
    ensures Legal(s, Iteration(s, outcome)) && After(s, Iteration(s, outcome)) == Iterated(s, outcome)
  {
    if s.ready != [] { AssignedIterates(s, outcome); }
    hide InRange, Apply, Enabled, Legal, After, Assignment, Assigned, FirstFree;
    TokensTaken(s);
    var a := s.(dispatcher := Taking, semQueries := s.semQueries - 1, semWorkers := s.semWorkers - 1);
    TakingEnds(a, outcome);
    Joined(s, [WaitForQuery, WaitForWorker], [Take] + if s.ready == [] then [GiveBackQuery, GiveBackWorker] else Assignment(s.workers, outcome));
  }
}
