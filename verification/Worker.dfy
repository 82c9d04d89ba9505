/**
 The one-thread worker of a device: two queues and a flag behind one mutex
 (COREdcs/server/include/DCSWorkerThread.h).  Every section under the mutex is one step, so a
 sequence of steps is an interleaving of the threads that use the worker.
 */
module Worker {
  import opened Bytes

  /** What an observer sees of a worker.  `front` marks the commands, which go before monitoring jobs. */
  datatype Event<T> =
    | Pushed(front: bool, job: T)
    | Started(front: bool, job: T)
    | Finished(job: T)
    | Terminated

  datatype Worker<T> = Worker(
    buffer: seq<T>,
    bufferPriority: seq<T>,
    terminate: bool,
    running: Option<T>,
    stopped: bool,
    log: seq<Event<T>>)
  {
    function Queue(front: bool): seq<T> { if front then bufferPriority else buffer }
  }

  datatype Action<T> = Push(front: bool, job: T) | Take | Finish | Terminate

  function Init<T>(): Worker<T> { Worker([], [], false, None, false, []) }

  /** The worker thread waits for this before it leaves the wait in its loop. */
  predicate Awake<T>(w: Worker<T>) { w.buffer != [] || w.bufferPriority != [] || w.terminate }

  /** A step; one that has to wait changes nothing. */
  function Step<T>(w: Worker<T>, a: Action<T>): Worker<T> {
    match a
    case Push(front, job) =>
      var log := w.log + [Pushed(front, job)];
      if front then w.(bufferPriority := w.bufferPriority + [job], log := log)
      else w.(buffer := w.buffer + [job], log := log)
    case Take =>
      if w.stopped || w.running.Some? || !Awake(w) then w
      else if w.terminate then w.(stopped := true)
      else if w.bufferPriority != [] then
        var job := w.bufferPriority[0];
        w.(bufferPriority := w.bufferPriority[1..], running := Some(job), log := w.log + [Started(true, job)])
      else
        var job := w.buffer[0];
        w.(buffer := w.buffer[1..], running := Some(job), log := w.log + [Started(false, job)])
    case Finish =>
      if w.running.None? then w else w.(running := None, log := w.log + [Finished(w.running.value)])
    case Terminate =>
      w.(terminate := true, log := w.log + [Terminated])
  }

  function Exec<T>(w: Worker<T>, acts: seq<Action<T>>): Worker<T> {
    if acts == [] then w else Step(Exec(w, acts[..|acts| - 1]), acts[|acts| - 1])
  }

  // ---- What a log says ----

  function PushedJobs<T>(log: seq<Event<T>>, front: bool): seq<T> {
    if log == [] then []
    else
      var e := log[|log| - 1];
      PushedJobs(log[..|log| - 1], front) + if e.Pushed? && e.front == front then [e.job] else []
  }

  function StartedJobs<T>(log: seq<Event<T>>, front: bool): seq<T> {
    if log == [] then []
    else
      var e := log[|log| - 1];
      StartedJobs(log[..|log| - 1], front) + if e.Started? && e.front == front then [e.job] else []
  }

  /** All jobs in the order they started. */
  function StartOrder<T>(log: seq<Event<T>>): seq<T> {
    if log == [] then []
    else
      var e := log[|log| - 1];
      StartOrder(log[..|log| - 1]) + if e.Started? then [e.job] else []
  }

  function FinishOrder<T>(log: seq<Event<T>>): seq<T> {
    if log == [] then []
    else
      var e := log[|log| - 1];
      FinishOrder(log[..|log| - 1]) + if e.Finished? then [e.job] else []
  }

  /** The jobs of a class handed to the worker, in order. */
  function Pushes<T>(acts: seq<Action<T>>, front: bool): seq<T> {
    if acts == [] then []
    else
      var a := acts[|acts| - 1];
      Pushes(acts[..|acts| - 1], front) + if a.Push? && a.front == front then [a.job] else []
  }

  function Running<T>(w: Worker<T>): seq<T> { if w.running.Some? then [w.running.value] else [] }

  /** Whenever a monitoring job started, every command pushed before had started before. */
  ghost predicate CommandsFirst<T(!new)>(log: seq<Event<T>>) {
    forall i :: 0 <= i < |log| && log[i].Started? && !log[i].front ==> PushedJobs(log[..i], true) == StartedJobs(log[..i], true)
  }

  ghost predicate NothingStartsAfterTerminate<T(!new)>(log: seq<Event<T>>) {
    forall i, j :: 0 <= i < j < |log| && log[i].Terminated? ==> !log[j].Started?
  }

  // ---- Over all runs ----

  ghost predicate Inv<T(!new)>(w: Worker<T>) {
    && PushedJobs(w.log, true) == StartedJobs(w.log, true) + w.bufferPriority
    && PushedJobs(w.log, false) == StartedJobs(w.log, false) + w.buffer
    && StartOrder(w.log) == FinishOrder(w.log) + Running(w)
    && CommandsFirst(w.log)
    && NothingStartsAfterTerminate(w.log)
    && (w.terminate <==> Terminated in w.log)
  }

  /** What one more event adds. */
  lemma OneMore<T>(log: seq<Event<T>>, e: Event<T>)
    ensures forall front :: PushedJobs(log + [e], front) == PushedJobs(log, front) + if e.Pushed? && e.front == front then [e.job] else []
    ensures forall front :: StartedJobs(log + [e], front) == StartedJobs(log, front) + if e.Started? && e.front == front then [e.job] else []
    ensures StartOrder(log + [e]) == StartOrder(log) + if e.Started? then [e.job] else []
    ensures FinishOrder(log + [e]) == FinishOrder(log) + if e.Finished? then [e.job] else []
  {
    assert (log + [e])[..|log + [e]| - 1] == log;
  }

  lemma OrdersStay<T(!new)>(log: seq<Event<T>>, e: Event<T>)
    requires CommandsFirst(log) && NothingStartsAfterTerminate(log)
    requires e.Started? && !e.front ==> PushedJobs(log, true) == StartedJobs(log, true)
    requires e.Started? ==> Terminated !in log
    ensures CommandsFirst(log + [e]) && NothingStartsAfterTerminate(log + [e])
  {
    hide PushedJobs, StartedJobs;
    forall i | 0 <= i < |log + [e]| ensures (log + [e])[..i] == log[..i] {
    }
    assert log[..|log|] == log;
  }

  lemma PushKeepsInv<T(!new)>(w: Worker<T>, front: bool, job: T)
    requires Inv(w)
    ensures Inv(Step(w, Push(front, job)))
  {
    hide PushedJobs, StartedJobs, StartOrder, FinishOrder, CommandsFirst, NothingStartsAfterTerminate;
    OneMore(w.log, Pushed(front, job));
    OrdersStay(w.log, Pushed(front, job));
  }

  lemma TakeKeepsInv<T(!new)>(w: Worker<T>)
    requires Inv(w)
    ensures Inv(Step(w, Take))
  {
    hide PushedJobs, StartedJobs, StartOrder, FinishOrder, CommandsFirst, NothingStartsAfterTerminate;
    var w' := Step(w, Take);
    if w'.running != w.running {
      var front := w.bufferPriority != [];
      var e := Started(front, w'.running.value);
      OneMore(w.log, e);
      OrdersStay(w.log, e);
      assert w.Queue(front) == [e.job] + w'.Queue(front);
    }
  }

  lemma FinishKeepsInv<T(!new)>(w: Worker<T>)
    requires Inv(w)
    ensures Inv(Step(w, Finish))
  {
    hide PushedJobs, StartedJobs, StartOrder, FinishOrder, CommandsFirst, NothingStartsAfterTerminate;
    if w.running.Some? {
      OneMore(w.log, Finished(w.running.value));
      OrdersStay(w.log, Finished(w.running.value));
    }
  }

  /** Every step keeps the invariant. */
  lemma StepKeepsInv<T(!new)>(w: Worker<T>, a: Action<T>)
    requires Inv(w)
    ensures Inv(Step(w, a))
  {
    hide PushedJobs, StartedJobs, StartOrder, FinishOrder, CommandsFirst, NothingStartsAfterTerminate;
    match a {
      case Push(front, job) => PushKeepsInv(w, front, job);
      case Take => TakeKeepsInv(w);
      case Finish => FinishKeepsInv(w);
      case Terminate =>
        OneMore(w.log, Terminated);
        OrdersStay(w.log, Terminated);
    }
  }

  /** The pushes in the log are the pushes of the run. */
  lemma {:induction false} LogsPushes<T>(acts: seq<Action<T>>, front: bool)
    ensures PushedJobs(Exec(Init<T>(), acts).log, front) == Pushes(acts, front)
  {
    if acts != [] {
      LogsPushes(acts[..|acts| - 1], front);
      LogsPush(Exec(Init<T>(), acts[..|acts| - 1]), acts[|acts| - 1], front);
    }
  }

  lemma LogsPush<T>(w: Worker<T>, a: Action<T>, front: bool)
    ensures PushedJobs(Step(w, a).log, front) == PushedJobs(w.log, front) + if a.Push? && a.front == front then [a.job] else []
  {
    hide PushedJobs, StartedJobs, StartOrder, FinishOrder;
    var w' := Step(w, a);
    if w'.log != w.log {
      OneMore(w.log, w'.log[|w.log|]);
    }
  }

  /**
   For every interleaving: of each class, the jobs pushed are the jobs started, in the same order,
   followed by the jobs queued; the jobs started are the jobs finished followed by the one
   running; a monitoring job starts only when no command is queued; and nothing starts once the
   worker is told to terminate.
   */
  lemma {:induction false} RunsInOrder<T(!new)>(acts: seq<Action<T>>)
    ensures var w := Exec(Init<T>(), acts);
            && (forall front :: Pushes(acts, front) == StartedJobs(w.log, front) + w.Queue(front))
            && StartOrder(w.log) == FinishOrder(w.log) + Running(w)
            && CommandsFirst(w.log) && NothingStartsAfterTerminate(w.log)
  {
    ExecKeepsInv(Init<T>(), acts);
    LogsPushes(acts, true);
    LogsPushes(acts, false);
  }

  lemma {:induction false} ExecKeepsInv<T(!new)>(w: Worker<T>, acts: seq<Action<T>>)
    requires Inv(w)
    ensures Inv(Exec(w, acts))
  {
    if acts != [] {
      ExecKeepsInv(w, acts[..|acts| - 1]);
      StepKeepsInv(Exec(w, acts[..|acts| - 1]), acts[|acts| - 1]);
    }
  }

  lemma {:induction false} StartsSplit<T>(log: seq<Event<T>>)
    ensures multiset(StartOrder(log)) == multiset(StartedJobs(log, true)) + multiset(StartedJobs(log, false))
  {
    if log != [] {
      StartsSplit(log[..|log| - 1]);
    }
  }

  /** No job starts more often than it was pushed. */
  lemma StartsAtMostOnce<T(!new)>(acts: seq<Action<T>>, job: T)
    ensures multiset(StartOrder(Exec(Init<T>(), acts).log))[job]
         <= multiset(Pushes(acts, true))[job] + multiset(Pushes(acts, false))[job]
  {
    var w := Exec(Init<T>(), acts);
    RunsInOrder(acts);
    StartsSplit(w.log);
    assert Pushes(acts, true) == StartedJobs(w.log, true) + w.Queue(true);
    assert Pushes(acts, false) == StartedJobs(w.log, false) + w.Queue(false);
  }

  /** A worker that is not told to terminate, and whose jobs end, empties its queues: each round takes one job. */
  lemma {:induction false} Drains<T(!new)>(w: Worker<T>) returns (acts: seq<Action<T>>)
    requires !w.terminate && !w.stopped && w.running.None?
    ensures |acts| == 2 * (|w.buffer| + |w.bufferPriority|)
    ensures forall k :: 0 <= k < |acts| ==> acts[k] == if k % 2 == 0 then Take else Finish
    ensures Exec(w, acts).buffer == [] && Exec(w, acts).bufferPriority == []
    decreases |w.buffer| + |w.bufferPriority|
  {
    hide Step;
    if !Awake(w) {
      acts := [];
    } else {
      var w1 := DrainRound(w);
      var rest := Drains(w1);
      var round: seq<Action<T>> := [Take, Finish];
      acts := round + rest;
      assert round[..1] == [Take];
      assert Exec(w, round[..1]) == Step(w, Take);
      ExecSplits(w, round, rest);
      forall k | 0 <= k < |acts| ensures acts[k] == if k % 2 == 0 then Take else Finish {
        if k >= 2 {
          assert acts[k] == rest[k - 2];
        }
      }
    }
  }

  lemma DrainRound<T>(w: Worker<T>) returns (w1: Worker<T>)
    requires !w.terminate && !w.stopped && w.running.None? && Awake(w)
    ensures w1 == Step(Step(w, Take), Finish)
    ensures !w1.terminate && !w1.stopped && w1.running.None?
    ensures |w1.buffer| + |w1.bufferPriority| + 1 == |w.buffer| + |w.bufferPriority|
  {
    w1 := Step(Step(w, Take), Finish);
  }

  /** A worker told to terminate ends as soon as its job does, however many jobs are left, and leaves them in their queues. */
  lemma Ends<T>(w: Worker<T>)
    requires w.terminate
    ensures var w' := Exec(w, [Finish, Take]);
            w'.stopped && w'.running.None? && w'.buffer == w.buffer && w'.bufferPriority == w.bufferPriority
  {
    var acts: seq<Action<T>> := [Finish, Take];
    assert acts[..1] == [Finish] && acts[..1][..0] == [];
    assert Exec(w, acts[..1]) == Step(w, Finish);
    assert Exec(w, acts) == Step(Step(w, Finish), Take);
  }

  lemma {:induction false} ExecSplits<T>(w: Worker<T>, a: seq<Action<T>>, b: seq<Action<T>>)
    ensures Exec(w, a + b) == Exec(Exec(w, a), b)
  {
    if b == [] {
      assert a + b == a;
    } else {
      ExecSplits(w, a, b[..|b| - 1]);
      assert (a + b)[..|a + b| - 1] == a + b[..|b| - 1];
    }
  }

  // ---- The class ----

  class DCSWorkerThread<T> {
    var buffer: seq<T>
    var bufferPriority: seq<T>
    var terminate: bool
    var running: Option<T>
    var stopped: bool
    ghost var log: seq<Event<T>>

    ghost function State(): Worker<T>
      reads this
    {
      Worker(buffer, bufferPriority, terminate, running, stopped, log)
    }

    constructor ()
      ensures State() == Init<T>()
    {
      buffer, bufferPriority, terminate, running, stopped, log := [], [], false, None, false, [];
    }

    method Size() returns (n: nat)
      ensures n == |State().Queue(true)| + |State().Queue(false)|
    {
      n := |bufferPriority| + |buffer|;
    }

    method PushJob(frontQueue: bool, f: T)
      modifies this
      ensures State() == Step(old(State()), Push(frontQueue, f))
      ensures bufferPriority == old(bufferPriority) + (if frontQueue then [f] else [])
      ensures buffer == old(buffer) + (if frontQueue then [] else [f])
      ensures terminate == old(terminate) && running == old(running) && stopped == old(stopped)
    {
      if frontQueue {
        bufferPriority := bufferPriority + [f];
      } else {
        buffer := buffer + [f];
      }
      log := log + [Pushed(frontQueue, f)];
    }

    method PushBack(f: T)
      modifies this
      ensures State() == Step(old(State()), Push(false, f))
      ensures buffer == old(buffer) + [f] && bufferPriority == old(bufferPriority)
      ensures terminate == old(terminate) && running == old(running) && stopped == old(stopped)
    {
      PushJob(false, f);
    }

    method PushFront(f: T)
      modifies this
      ensures State() == Step(old(State()), Push(true, f))
      ensures bufferPriority == old(bufferPriority) + [f] && buffer == old(buffer)
      ensures terminate == old(terminate) && running == old(running) && stopped == old(stopped)
    {
      PushJob(true, f);
    }

    /** The locked section of the worker loop, once the wait is over: the job to run, or the end of the thread. */
    method TakeJob() returns (job: Option<T>)
      requires !stopped && running.None? && Awake(State())
      modifies this
      ensures State() == Step(old(State()), Take)
      ensures job == running && (job.None? <==> old(terminate)) && stopped == old(terminate) && terminate == old(terminate)
      ensures job.Some? && old(bufferPriority) != [] ==>
        old(bufferPriority) == [job.value] + bufferPriority && buffer == old(buffer)
      ensures job.Some? && old(bufferPriority) == [] ==> old(buffer) == [job.value] + buffer && bufferPriority == []
      ensures job.None? ==> buffer == old(buffer) && bufferPriority == old(bufferPriority)
    {
      if terminate {
        stopped := true;
        return None;
      } else if bufferPriority != [] {
        job := Some(bufferPriority[0]);
        bufferPriority := bufferPriority[1..];
        log := log + [Started(true, job.value)];
      } else {
        job := Some(buffer[0]);
        buffer := buffer[1..];
        log := log + [Started(false, job.value)];
      }
      running := job;
    }

    /** The job the loop runs after its locked section is over. */
    method FinishJob()
      requires running.Some?
      modifies this
      ensures State() == Step(old(State()), Finish)
      ensures running.None? && buffer == old(buffer) && bufferPriority == old(bufferPriority)
      ensures terminate == old(terminate) && stopped == old(stopped)
    {
      log := log + [Finished(running.value)];
      running := None;
    }

    /** The locked section of the destructor. */
    method SetTerminate()
      modifies this
      ensures State() == Step(old(State()), Terminate)
      ensures terminate && buffer == old(buffer) && bufferPriority == old(bufferPriority)
      ensures running == old(running) && stopped == old(stopped)
    {
      terminate := true;
      log := log + [Terminated];
    }
  }
}
