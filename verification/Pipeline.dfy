/**
 From a method call of a client to the worker of a device: the queue of the server, the
 dispatcher thread and the device threads (COREdcs/server/src/DCSServer.cpp).  The server hands
 out its requests in the order they came.
 */
module Pipeline {
  import opened Bytes
  import opened W = Worker

  datatype Request = Request(id: int, device: string)

  /** What a device thread runs: the call of a method, or an update of a variable. */
  datatype Job = Call(request: Request) | Poll(id: int)

  /**
   `unnotified` counts the requests in the queue whose callback has not run yet; `inHand` is the
   request the running dispatcher job has fetched; `arrived` are all requests so far.
   */
  datatype Pipeline = Pipeline(
    requests: seq<Request>,
    unnotified: nat,
    dispatcher: Worker<()>,
    inHand: Option<Request>,
    devices: map<string, Worker<Job>>,
    arrived: seq<Request>)
  {
    function Device(d: string): Worker<Job> { if d in devices then devices[d] else W.Init() }
  }

  datatype Action =
    | Arrive(request: Request)
    | Notify
    | Dispatch
    | Fetch
    | Forward
    | TerminateDispatcher
    | OnDevice(device: string, action: W.Action<Job>)

  function Start(): Pipeline { Pipeline([], 0, W.Init(), None, map[], []) }

  /** A step; one that has to wait changes nothing.  Only the dispatcher pushes commands. */
  function Advance(s: Pipeline, a: Action): Pipeline {
    match a
    case Arrive(r) => s.(requests := s.requests + [r], unnotified := s.unnotified + 1, arrived := s.arrived + [r])
    case Notify =>
      if s.unnotified == 0 then s
      else s.(unnotified := s.unnotified - 1, dispatcher := W.Step(s.dispatcher, Push(false, ())))
    case Dispatch => s.(dispatcher := W.Step(s.dispatcher, Take))
    case Fetch =>
      if s.dispatcher.running.None? || s.inHand.Some? || s.requests == [] then s
      else s.(requests := s.requests[1..], inHand := Some(s.requests[0]))
    case Forward =>
      if s.dispatcher.running.None? || s.inHand.None? then s
      else
        var r := s.inHand.value;
        s.(inHand := None, dispatcher := W.Step(s.dispatcher, Finish),
           devices := s.devices[r.device := W.Step(s.Device(r.device), Push(true, Call(r)))])
    case TerminateDispatcher => s.(dispatcher := W.Step(s.dispatcher, Terminate))
    case OnDevice(d, act) =>
      if act.Push? && act.front then s
      else s.(devices := s.devices[d := W.Step(s.Device(d), act)])
  }

  function Exec(acts: seq<Action>): Pipeline {
    if acts == [] then Start() else Advance(Exec(acts[..|acts| - 1]), acts[|acts| - 1])
  }

  /** The requests that arrived, in order. */
  function Arrivals(acts: seq<Action>): seq<Request> {
    if acts == [] then []
    else
      var a := acts[|acts| - 1];
      Arrivals(acts[..|acts| - 1]) + if a.Arrive? then [a.request] else []
  }

  /** The calls for one device among the requests. */
  function Calls(rs: seq<Request>, d: string): seq<Job> {
    if rs == [] then []
    else (if rs[0].device == d then [Call(rs[0])] else []) + Calls(rs[1..], d)
  }

  lemma {:induction false} CallsSplit(a: seq<Request>, b: seq<Request>, d: string)
    ensures Calls(a + b, d) == Calls(a, d) + Calls(b, d)
  {
    hide Calls;
    if a == [] {
      CallsNone(d);
      assert a + b == b;
    } else {
      CallsSplit(a[1..], b, d);
      CallsFirst(a, d);
      CallsFirst(a + b, d);
      assert (a + b)[1..] == a[1..] + b;
    }
  }

  lemma CallsNone(d: string)
    ensures Calls([], d) == []
  {
  }

  lemma CallsFirst(rs: seq<Request>, d: string)
    requires rs != []
    ensures Calls(rs, d) == if rs[0].device == d then [Call(rs[0])] + Calls(rs[1..], d) else Calls(rs[1..], d)
  {
  }

  function InHand(s: Pipeline): seq<Request> { if s.inHand.Some? then [s.inHand.value] else [] }

  // ---- Over all runs ----

  /** The calls for a device, in order of arrival: those pushed to it, the one in hand, those still queued. */
  ghost predicate InOrder(s: Pipeline, d: string) {
    && W.Inv(s.Device(d))
    && Calls(s.arrived, d) == PushedJobs(s.Device(d).log, true) + Calls(InHand(s), d) + Calls(s.requests, d)
  }

  /** Every queued or fetched request has its own job: in the dispatcher's queue, running, or about to be pushed. */
  predicate Matched(s: Pipeline) {
    && |s.requests| + |InHand(s)| == |s.dispatcher.buffer| + |Running(s.dispatcher)| + s.unnotified
    && (s.inHand.Some? ==> s.dispatcher.running.Some?)
    && s.dispatcher.bufferPriority == []
    && (s.dispatcher.stopped ==> s.dispatcher.terminate)
  }

  lemma StepKeepsMatched(s: Pipeline, a: Action)
    requires Matched(s)
    ensures Matched(Advance(s, a))
  {
  }

  lemma StartInOrder(d: string)
    ensures InOrder(Start(), d)
  {
  }

  lemma FetchInOrder(s: Pipeline, d: string)
    requires InOrder(s, d) && Matched(s)
    ensures InOrder(Advance(s, Fetch), d)
  {
    hide W.Inv, PushedJobs, Calls;
    if s.requests != [] {
      CallsFirst(s.requests, d);
      CallsOne(s.requests[0], d);
    }
  }

  lemma ForwardInOrder(s: Pipeline, d: string)
    requires InOrder(s, d)
    ensures InOrder(Advance(s, Forward), d)
  {
    hide W.Inv, PushedJobs, W.Step;
    if s.dispatcher.running.Some? && s.inHand.Some? {
      var act := Push(true, Call(s.inHand.value));
      LogsPush(s.Device(d), act, true);
      StepKeepsInv(s.Device(d), act);
      CallsOne(s.inHand.value, d);
    }
  }

  lemma CallsOne(r: Request, d: string)
    ensures Calls([r], d) == (if r.device == d then [Call(r)] else []) && Calls([], d) == []
  {
    assert [r][1..] == [];
  }

  lemma StepKeepsOrder(s: Pipeline, a: Action, d: string)
    requires InOrder(s, d) && Matched(s)
    ensures InOrder(Advance(s, a), d)
  {
    hide W.Inv, PushedJobs, W.Step, Calls;
    match a {
      case Arrive(r) =>
        CallsSplit(s.arrived, [r], d);
        CallsSplit(s.requests, [r], d);
      case Fetch => FetchInOrder(s, d);
      case Forward => ForwardInOrder(s, d);
      case OnDevice(_, act) =>
        LogsPush(s.Device(d), act, true);
        StepKeepsInv(s.Device(d), act);
      case _ =>
    }
  }

  lemma {:induction false} ExecKeepsOrder(acts: seq<Action>, d: string)
    ensures InOrder(Exec(acts), d) && Matched(Exec(acts)) && Exec(acts).arrived == Arrivals(acts)
  {
    hide InOrder;
    if acts == [] {
      StartInOrder(d);
    } else {
      var s := Exec(acts[..|acts| - 1]);
      ExecKeepsOrder(acts[..|acts| - 1], d);
      StepKeepsOrder(s, acts[|acts| - 1], d);
      StepKeepsMatched(s, acts[|acts| - 1]);
    }
  }

  /**
   For every interleaving and every device: the calls that arrived for it are those its thread
   has started, those in its queue, the one the dispatcher holds and those in the server's queue,
   in the order of arrival.
   */
  lemma CallsKeepArrivalOrder(acts: seq<Action>, d: string)
    ensures var s := Exec(acts);
            Calls(Arrivals(acts), d)
              == StartedJobs(s.Device(d).log, true) + s.Device(d).bufferPriority + Calls(InHand(s), d) + Calls(s.requests, d)
  {
    hide Exec, Calls, StartedJobs, PushedJobs;
    ExecKeepsOrder(acts, d);
  }

  /** A dispatcher job that polls the server finds a request: its loop never has to sleep. */
  lemma FetchFindsRequest(acts: seq<Action>)
    ensures var s := Exec(acts); s.dispatcher.running.Some? && s.inHand.None? ==> s.requests != []
  {
    hide Exec;
    ExecKeepsOrder(acts, "");
  }

  // ---- Every call is delivered ----

  /** The steps the server and the dispatcher still have to take. */
  function Ahead(s: Pipeline): nat {
    4 * s.unnotified + 3 * |s.dispatcher.buffer| + if s.dispatcher.running.None? then 0 else if s.inHand.None? then 2 else 1
  }

  predicate OnTheWay(a: Action) { a.Notify? || a.Dispatch? || a.Fetch? || a.Forward? }

  /** The next of them. */
  function NextStep(s: Pipeline): Action {
    if s.dispatcher.running.Some? then (if s.inHand.Some? then Forward else Fetch)
    else if s.dispatcher.buffer != [] then Dispatch
    else Notify
  }

  lemma NextStepMoves(s: Pipeline)
    requires Matched(s) && !s.dispatcher.terminate && Ahead(s) > 0
    ensures var s' := Advance(s, NextStep(s)); Ahead(s') == Ahead(s) - 1 && !s'.dispatcher.terminate && s'.arrived == s.arrived
  {
  }

  lemma Executed(acts: seq<Action>, a: Action)
    ensures Exec(acts + [a]) == Advance(Exec(acts), a)
    ensures Arrivals(acts + [a]) == Arrivals(acts) + if a.Arrive? then [a.request] else []
  {
    hide Advance;
    assert (acts + [a])[..|acts|] == acts;
  }

  /**
   From every reachable state whose dispatcher is not told to terminate, steps of the server and the
   dispatcher alone, as many as `Ahead` says, leave no callback, no request and no job behind; then
   every call that arrived, for whatever device, has been started there or is queued.
   */
  lemma {:induction false} Delivers(acts: seq<Action>) returns (more: seq<Action>)
    requires !Exec(acts).dispatcher.terminate
    ensures |more| == Ahead(Exec(acts)) && forall k :: 0 <= k < |more| ==> OnTheWay(more[k])
    ensures var t := Exec(acts + more);
            && t.unnotified == 0 && t.requests == [] && t.inHand.None? && t.dispatcher.running.None? && t.dispatcher.buffer == []
            && forall d :: Calls(Arrivals(acts), d) == StartedJobs(t.Device(d).log, true) + t.Device(d).bufferPriority
    decreases Ahead(Exec(acts))
  {
    hide Exec, Advance, StartedJobs, PushedJobs, Calls, Arrivals, NextStep, InOrder;
    var s := Exec(acts);
    ExecKeepsOrder(acts, "");
    if Ahead(s) == 0 {
      more := [];
      assert acts + more == acts;
      forall d ensures Calls(Arrivals(acts), d) == StartedJobs(s.Device(d).log, true) + s.Device(d).bufferPriority {
        IdleDispatcherDelivered(acts, d);
      }
    } else {
      var a := NextStep(s);
      NextIsOnTheWay(s);
      NextStepMoves(s);
      Executed(acts, a);
      var rest := Delivers(acts + [a]);
      more := [a] + rest;
      assert acts + more == acts + [a] + rest;
      assert Arrivals(acts) + [] == Arrivals(acts);
    }
  }

  lemma NextIsOnTheWay(s: Pipeline)
    ensures OnTheWay(NextStep(s))
  {
  }

  /** Steps of one device's thread. */
  function OnThread(d: string, acts: seq<W.Action<Job>>): seq<Action> { seq(|acts|, k requires 0 <= k < |acts| => OnDevice(d, acts[k])) }

  /** They do to the thread what they do to a worker, and to nothing else. */
  lemma {:induction false} ThreadRuns(acts: seq<Action>, d: string, own: seq<W.Action<Job>>)
    requires forall k :: 0 <= k < |own| ==> !own[k].Push?
    ensures var t := Exec(acts + OnThread(d, own));
            && t.Device(d) == W.Exec(Exec(acts).Device(d), own) && Arrivals(acts + OnThread(d, own)) == Arrivals(acts)
    decreases |own|
  {
    hide Exec, Arrivals, W.Step;
    if own == [] {
      assert acts + OnThread(d, own) == acts;
    } else {
      var n := |own| - 1;
      ThreadRuns(acts, d, own[..n]);
      var before := acts + OnThread(d, own[..n]);
      Executed(before, OnDevice(d, own[n]));
      assert acts + OnThread(d, own) == before + [OnDevice(d, own[n])];
      assert Arrivals(acts) + [] == Arrivals(acts);
    }
  }

  /** A worker not told to terminate can finish its job and start every job in its queues, commands included. */
  lemma WorkerEmpties(w: Worker<Job>) returns (own: seq<W.Action<Job>>)
    requires !w.terminate && !w.stopped
    ensures forall k :: 0 <= k < |own| ==> own[k].Take? || own[k].Finish?
    ensures W.Exec(w, own).bufferPriority == []
  {
    hide W.Step;
    if w.running.None? {
      own := Drains(w);
    } else {
      var w1 := Finished(w);
      var rest := Drains(w1);
      var one: seq<W.Action<Job>> := [Finish];
      own := one + rest;
      assert one[..0] == [];
      assert W.Exec(w, one) == W.Step(w, Finish);
      ExecSplits(w, one, rest);
    }
  }

  lemma Finished(w: Worker<Job>) returns (w1: Worker<Job>)
    requires !w.terminate && !w.stopped && w.running.Some?
    ensures w1 == W.Step(w, Finish) && !w1.terminate && !w1.stopped && w1.running.None?
  {
    w1 := W.Step(w, Finish);
  }

  lemma {:induction false} ThreadGoesOn(acts: seq<Action>, more: seq<Action>, d: string)
    requires forall k :: 0 <= k < |more| ==> OnTheWay(more[k])
    ensures Exec(acts + more).Device(d).terminate == Exec(acts).Device(d).terminate
    ensures Exec(acts + more).Device(d).stopped == Exec(acts).Device(d).stopped
    decreases |more|
  {
    hide Exec, Arrivals;
    if more == [] {
      assert acts + more == acts;
    } else {
      var n := |more| - 1;
      ThreadGoesOn(acts, more[..n], d);
      Executed(acts + more[..n], more[n]);
      assert acts + more == acts + more[..n] + [more[n]];
    }
  }

  /**
   Every call runs: from every reachable state whose dispatcher and device thread are not told to
   terminate, steps of the server, the dispatcher and that thread lead to a state in which all calls
   that arrived for the device have started, in the order of arrival.
   */
  lemma EveryCallRuns(acts: seq<Action>, d: string) returns (more: seq<Action>)
    requires var s := Exec(acts); !s.dispatcher.terminate && !s.Device(d).terminate && !s.Device(d).stopped
    ensures forall k :: 0 <= k < |more| ==> OnTheWay(more[k]) || (more[k].OnDevice? && more[k].device == d)
    ensures Calls(Arrivals(acts), d) == StartedJobs(Exec(acts + more).Device(d).log, true)
  {
    hide Exec, Advance, StartedJobs, PushedJobs, Calls, Arrivals, W.Step, W.Exec, Ahead;
    var way := Delivers(acts);
    ThreadGoesOn(acts, way, d);
    var own := WorkerEmpties(Exec(acts + way).Device(d));
    ThreadRuns(acts + way, d, own);
    more := way + OnThread(d, own);
    assert acts + more == acts + way + OnThread(d, own);
    WayArrivals(acts, way);
    CallsKeepArrivalOrder(acts + more, d);
    ExecKeepsOrder(acts + more, d);
    ThreadKeepsServer(acts + way, d, own);
    var t := Exec(acts + more);
    NoCalls(t, d);
    assert StartedJobs(t.Device(d).log, true) + [] + [] + [] == StartedJobs(t.Device(d).log, true);
  }

  lemma NoCalls(t: Pipeline, d: string)
    requires t.inHand.None? && t.requests == []
    ensures Calls(InHand(t), d) == [] && Calls(t.requests, d) == []
  {
  }

  lemma {:induction false} WayArrivals(acts: seq<Action>, way: seq<Action>)
    requires forall k :: 0 <= k < |way| ==> OnTheWay(way[k])
    ensures Arrivals(acts + way) == Arrivals(acts)
    decreases |way|
  {
    hide Exec, Advance, Arrivals;
    if way == [] {
      assert acts + way == acts;
    } else {
      var n := |way| - 1;
      WayArrivals(acts, way[..n]);
      Executed(acts + way[..n], way[n]);
      assert acts + way == acts + way[..n] + [way[n]];
      assert Arrivals(acts) + [] == Arrivals(acts);
    }
  }

  lemma {:induction false} ThreadKeepsServer(acts: seq<Action>, d: string, own: seq<W.Action<Job>>)
    ensures var s, t := Exec(acts), Exec(acts + OnThread(d, own)); t.requests == s.requests && t.inHand == s.inHand
    decreases |own|
  {
    hide Exec, Arrivals, W.Step;
    if own == [] {
      assert acts + OnThread(d, own) == acts;
    } else {
      var n := |own| - 1;
      ThreadKeepsServer(acts, d, own[..n]);
      var before := acts + OnThread(d, own[..n]);
      Executed(before, OnDevice(d, own[n]));
      assert acts + OnThread(d, own) == before + [OnDevice(d, own[n])];
    }
  }

  /** Once the dispatcher is told to terminate it starts no job any more. */
  lemma {:induction false} DispatcherStops(acts: seq<Action>, more: seq<Action>)
    requires Exec(acts).dispatcher.terminate
    ensures Exec(acts + more).dispatcher.terminate
    ensures StartOrder(Exec(acts + more).dispatcher.log) == StartOrder(Exec(acts).dispatcher.log)
    decreases |more|
  {
    hide Exec, Arrivals, W.Step, StartOrder;
    if more == [] {
      assert acts + more == acts;
    } else {
      var n := |more| - 1;
      DispatcherStops(acts, more[..n]);
      var s := Exec(acts + more[..n]);
      Executed(acts + more[..n], more[n]);
      assert acts + more == acts + more[..n] + [more[n]];
      StopsStarting(s.dispatcher, Push(false, ()));
      StopsStarting(s.dispatcher, Take);
      StopsStarting(s.dispatcher, Finish);
      StopsStarting(s.dispatcher, Terminate);
    }
  }

  lemma StopsStarting(w: Worker<()>, a: W.Action<()>)
    requires w.terminate
    ensures W.Step(w, a).terminate && StartOrder(W.Step(w, a).log) == StartOrder(w.log)
  {
    hide StartOrder;
    var w' := W.Step(w, a);
    if w'.log != w.log { OneMore(w.log, w'.log[|w.log|]); }
  }

  /** It is told by this step. */
  lemma TerminateTells(acts: seq<Action>)
    ensures Exec(acts + [TerminateDispatcher]).dispatcher.terminate
  {
    Executed(acts, TerminateDispatcher);
  }

  /** Once every callback has run and the dispatcher is idle, every call that arrived is at its device. */
  lemma IdleDispatcherDelivered(acts: seq<Action>, d: string)
    requires var s := Exec(acts); s.unnotified == 0 && s.dispatcher.buffer == [] && s.dispatcher.running.None?
    ensures var w := Exec(acts).Device(d); Calls(Arrivals(acts), d) == StartedJobs(w.log, true) + w.bufferPriority
  {
    hide Exec, StartedJobs, PushedJobs;
    ExecKeepsOrder(acts, d);
  }
}
