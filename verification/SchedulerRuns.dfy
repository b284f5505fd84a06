/** Putting runs of the scheduler together, and a short run in which a refused send does its harm. */
module SchedulerRuns {
  import opened Common
  import opened ReadyQueue
  import opened Scheduler
  import opened SchedulerPlacement
  import opened SchedulerOrder

  lemma Unfold(s: State, run: seq<Step>)
    requires InRange(s) && Legal(s, run)
    ensures run == [] ==> After(s, run) == s
    ensures run != [] ==>
              && Enabled(s, run[0]) && Legal(Apply(s, run[0]), run[1..])
              && After(s, run) == After(Apply(s, run[0]), run[1..])
  {
  }

  lemma Fold(s: State, p: Step, rest: seq<Step>)
    requires InRange(s) && Enabled(s, p) && Legal(Apply(s, p), rest)
    ensures Legal(s, [p] + rest) && After(s, [p] + rest) == After(Apply(s, p), rest)
  {
    hide Apply, Enabled, InRange;
    assert ([p] + rest)[1..] == rest;
  }

  /** Running a and then b is running a + b. */
  lemma {:induction false} Joined(s: State, a: seq<Step>, b: seq<Step>)
    requires InRange(s) && Legal(s, a) && Legal(After(s, a), b)
    ensures Legal(s, a + b) && After(s, a + b) == After(After(s, a), b)
    decreases |a|
  {
    hide Apply, Enabled, InRange, Legal, After;
    Unfold(s, a);
    if a == [] {
      assert a + b == b;
    } else {
      Joined(Apply(s, a[0]), a[1..], b);
      Fold(s, a[0], a[1..] + b);
      assert a + b == [a[0]] + (a[1..] + b);
    }
  }

  lemma OneStep(s: State, p: Step)
    requires InRange(s) && Enabled(s, p)
    ensures Legal(s, [p]) && After(s, [p]) == Apply(s, p)
  {
    hide Apply, Enabled, InRange;
    Unfold(Apply(s, p), []);
    Fold(s, p, []);
    assert [p] + [] == [p];
  }

  // The run so far, one step longer.
  lemma Longer(s: State, run: seq<Step>, p: Step)
    requires InRange(s) && Legal(s, run) && Enabled(After(s, run), p)
    ensures Legal(s, run + [p]) && After(s, run + [p]) == Apply(After(s, run), p)
  {
    hide Apply, Enabled, Legal, After;
    OneStep(After(s, run), p);
    Joined(s, run, [p]);
  }

  /** A run that visits these states is legal and ends in the last of them. */
  ghost predicate Visits(states: seq<State>, run: seq<Step>) {
    && |states| == |run| + 1
    && (forall k :: 0 <= k < |states| ==> InRange(states[k]))
    && forall k :: 0 <= k < |run| ==> Enabled(states[k], run[k]) && Apply(states[k], run[k]) == states[k + 1]
  }

  lemma {:induction false} VisitedLegal(states: seq<State>, run: seq<Step>)
    requires Visits(states, run)
    ensures Legal(states[0], run) && After(states[0], run) == states[|run|]
    decreases |run|
  {
    hide Apply, Enabled, InRange;
    if run != [] {
      var rest := states[1..];
      forall k | 0 <= k < |run| - 1
        ensures Enabled(rest[k], run[1..][k]) && Apply(rest[k], run[1..][k]) == rest[k + 1]
      {
        assert rest[k] == states[k + 1] && run[1..][k] == run[k + 1];
      }
      VisitedLegal(rest, run[1..]);
    }
  }

  // A state under PRIORIDADES with nothing finished and nothing requested.
  function Scene(prio: seq<int>, ready: seq<Qid>, workers: seq<Worker>, pcs: seq<Pc>, d: Dispatcher, queries: nat, tokens: nat): State {
    State(true, prio, ready, workers,
          seq(|pcs|, i requires 0 <= i < |pcs| => Thread(if i == 1 then Handler(0) else Client, pcs[i])),
          d, queries, tokens, {}, {})
  }

  const IDLE := Worker(true, true, None)
  const RESERVED := Worker(true, false, None)
  const BUSY := Worker(true, false, Some(0))

  // A query of priority 5 and a worker arrive and the dispatcher takes the query; a query of priority 1
  // arrives; the send of the first is refused, and it is put back.
  function Scenes(): seq<State> {
    [Scene([], [], [], [], WaitQuery, 0, 0),
     Scene([5], [], [], [Inserting(0)], WaitQuery, 0, 0),
     Scene([5], [], [IDLE], [Inserting(0), OwesWorker(Nothing)], WaitQuery, 0, 0),
     Scene([5], [], [IDLE], [Inserting(0), Idle], WaitQuery, 0, 1),
     Scene([5], [0], [IDLE], [OwesQuery, Idle], WaitQuery, 0, 1),
     Scene([5], [0], [IDLE], [Checking, Idle], WaitQuery, 1, 1),
     Scene([5], [0], [IDLE], [Checking, Idle], WaitWorker, 0, 1),
     Scene([5], [0], [IDLE], [Checking, Idle], Taking, 0, 0),
     Scene([5], [], [IDLE], [Checking, Idle], Choosing(0), 0, 0),
     Scene([5, 1], [], [IDLE], [Checking, Idle, Inserting(1)], Choosing(0), 0, 0),
     Scene([5, 1], [1], [IDLE], [Checking, Idle, OwesQuery], Choosing(0), 0, 0),
     Scene([5, 1], [1], [RESERVED], [Checking, Idle, OwesQuery], Binding(0, 0), 0, 0),
     Scene([5, 1], [1], [BUSY], [Checking, Idle, OwesQuery], Sending(0, 0), 0, 0),
     Scene([5, 1], [1], [BUSY], [Checking, Idle, OwesQuery], Returning(0), 0, 0),
     Scene([5, 1], [0, 1], [BUSY], [Checking, Idle, OwesQuery], RepostQuery, 0, 0)]
  }

  function RefusedRun(): seq<Step> {
    [QueryArrives(5), WorkerArrives, PostWorker(1), Insert(0), PostQuery(0), WaitForQuery, WaitForWorker, Take,
     QueryArrives(1), Insert(2), Choose, Bind, Send(Refused), PutBack]
  }

  lemma ArrivalSteps(k: nat)
    requires k < 2 || k == 8
    ensures InRange(Scenes()[k]) && Enabled(Scenes()[k], RefusedRun()[k])
    ensures Apply(Scenes()[k], RefusedRun()[k]) == Scenes()[k + 1]
  {
    hide Sort, Worst, FirstFree;
    assert Apply(Scenes()[k], RefusedRun()[k]).threads == Scenes()[k + 1].threads;
  }

  lemma PostSteps(k: nat)
    requires k == 2 || k == 4
    ensures InRange(Scenes()[k]) && Enabled(Scenes()[k], RefusedRun()[k])
    ensures Apply(Scenes()[k], RefusedRun()[k]) == Scenes()[k + 1]
  {
    hide Sort, Worst, FirstFree;
    assert Apply(Scenes()[k], RefusedRun()[k]).threads == Scenes()[k + 1].threads;
  }

  // Insertion into an empty queue.
  lemma InsertAlone(s: State, t: nat, q: Qid)
    requires InRange(s) && t < |s.threads| && s.threads[t].pc == Inserting(q) && s.ready == []
    ensures Enabled(s, Insert(t)) && Apply(s, Insert(t)) == At(s, t, OwesQuery).(ready := [q])
  {
    assert s.ready + [q] == [q];
    assert Sort(s.prio, [q]) == [q];
  }

  lemma InsertSteps(k: nat)
    requires k == 3 || k == 9
    ensures InRange(Scenes()[k]) && Enabled(Scenes()[k], RefusedRun()[k])
    ensures Apply(Scenes()[k], RefusedRun()[k]) == Scenes()[k + 1]
  {
    hide Apply, Enabled;
    var s, t, q := Scenes()[k], if k == 3 then 0 else 2, if k == 3 then 0 else 1;
    InsertAlone(s, t, q);
    assert At(s, t, OwesQuery).threads == Scenes()[k + 1].threads;
  }

  lemma TakeSteps(k: nat)
    requires 5 <= k < 8
    ensures InRange(Scenes()[k]) && Enabled(Scenes()[k], RefusedRun()[k])
    ensures Apply(Scenes()[k], RefusedRun()[k]) == Scenes()[k + 1]
  {
    hide Sort, Worst, FirstFree;
  }

  lemma ChooseSteps(k: nat)
    requires 10 <= k < 14
    ensures InRange(Scenes()[k]) && Enabled(Scenes()[k], RefusedRun()[k])
    ensures Apply(Scenes()[k], RefusedRun()[k]) == Scenes()[k + 1]
  {
    hide Sort, Worst, FirstFree;
    assert Idles([IDLE][0]);
  }

  lemma ScenesVisited()
    ensures |Scenes()| == 15 && |RefusedRun()| == 14 && Visits(Scenes(), RefusedRun())
  {
    forall k | 0 <= k < 14
      ensures InRange(Scenes()[k]) && Enabled(Scenes()[k], RefusedRun()[k]) && Apply(Scenes()[k], RefusedRun()[k]) == Scenes()[k + 1]
    {
      hide Apply, Enabled, InRange, Scenes, RefusedRun;
      if k < 2 || k == 8 {
        ArrivalSteps(k);
      } else if k == 2 || k == 4 {
        PostSteps(k);
      } else if k == 3 || k == 9 {
        InsertSteps(k);
      } else if k < 8 {
        TakeSteps(k);
      } else {
        ChooseSteps(k);
      }
    }
    LastScene();
    hide Apply, Enabled, InRange, Scene;
  }

  lemma LastScene()
    ensures InRange(Scenes()[14]) && !Conserved(Scenes()[14]) && !Canonical(Scenes()[14])
  {
    var s := Scenes()[14];
    CountPositive(s.workers, 0, Executes(0));
    assert 0 in multiset(s.ready);
    assert Places(s, 0) >= 2;
    assert Before(s.prio, s.ready[1], s.ready[0]);
  }

  /** A refused send does break both properties, in a run of fourteen steps from the start: the query is
      queued again while the worker's record still names it, and it waits before a more urgent one. */
  lemma RefusedSendBreaksBoth()
    ensures var start := Scenes()[0];
            Initial(start) && InRange(start) && Legal(start, RefusedRun()) && After(start, RefusedRun()) == Scenes()[14]
    ensures !Conserved(Scenes()[14]) && !Canonical(Scenes()[14])
  {
    ScenesVisited();
    LastScene();
    hide Apply, Enabled, RefusedRun, Conserved, Canonical;
    VisitedLegal(Scenes(), RefusedRun());
  }
}
