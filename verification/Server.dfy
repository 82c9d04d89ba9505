/**
 The server object: the map of its objects and the dispatcher, each section under a mutex one
 method (COREdcs/server/src/DCSServer.cpp), proved to take the steps of `Pipeline`.
 */
module Server {
  import opened Bytes
  import opened Pipeline
  import opened W = Worker

  class DCSObject {
    const name: string
    const deviceThread: DCSWorkerThread<Job>

    constructor (name: string)
      ensures this.name == name && fresh(deviceThread) && deviceThread.State() == W.Init()
    {
      this.name := name;
      this.deviceThread := new DCSWorkerThread<Job>();
    }
  }

  datatype Added = NotUnique | UnknownType | AddedObject(obj: DCSObject)

  class DCSServer {
    var objects: map<string, DCSObject>
    const dispatcherThread: DCSWorkerThread<()>
    var requests: seq<Request>
    var inHand: Option<Request>
    ghost var unnotified: nat
    ghost var arrived: seq<Request>

    /** Names are unique, and every object has its own thread. */
    ghost predicate Valid()
      reads this
    {
      && (forall n :: n in objects ==> objects[n].name == n)
      && (forall m, n :: m in objects && n in objects && m != n ==> objects[m].deviceThread != objects[n].deviceThread)
    }

    ghost function Threads(): set<DCSWorkerThread<Job>>
      reads this
    {
      set n | n in objects :: objects[n].deviceThread
    }

    ghost function State(): Pipeline
      reads this, dispatcherThread, Threads()
    {
      Pipeline(requests, unnotified, dispatcherThread.State(), inHand, Devices(), arrived)
    }

    ghost function Devices(): map<string, Worker<Job>>
      reads this, Threads()
    {
      map n | n in objects :: objects[n].deviceThread.State()
    }

    constructor ()
      ensures Valid() && fresh(dispatcherThread) && State() == Start()
    {
      objects, requests, inHand, unnotified, arrived := map[], [], None, 0, [];
      dispatcherThread := new DCSWorkerThread<()>();
    }

    /** The server puts the request of an asynchronous method into its queue. */
    method EnqueueRequest(r: Request)
      requires Valid()
      modifies this`requests, this`unnotified, this`arrived
      ensures Valid() && State() == Advance(old(State()), Arrive(r))
      ensures requests == old(requests) + [r]
    {
      requests := requests + [r];
      unnotified := unnotified + 1;
      arrived := arrived + [r];
    }

    method AsyncCallback()
      requires Valid() && unnotified > 0
      modifies this`unnotified, dispatcherThread
      ensures Valid() && State() == Advance(old(State()), Notify)
      ensures dispatcherThread.buffer == old(dispatcherThread.buffer) + [()] && unnotified == old(unnotified) - 1
      ensures dispatcherThread.bufferPriority == old(dispatcherThread.bufferPriority)
      ensures dispatcherThread.running == old(dispatcherThread.running)
    {
      dispatcherThread.PushBack(());
      unnotified := unnotified - 1;
    }

    /** One poll of the dispatcher job for a request. */
    method GetAsyncOperationNonBlocking() returns (got: bool)
      requires Valid() && dispatcherThread.running.Some? && inHand.None?
      modifies this`requests, this`inHand
      ensures Valid() && State() == Advance(old(State()), Fetch)
      ensures got == (old(requests) != []) && got == inHand.Some?
      ensures old(requests) == (if got then [inHand.value] else []) + requests
    {
      if requests == [] {
        return false;
      }
      inHand := Some(requests[0]);
      requests := requests[1..];
      return true;
    }

    /** The rest of the dispatcher job: the call goes to the thread of its device. */
    method ForwardRequest()
      requires Valid() && dispatcherThread.running.Some? && inHand.Some? && inHand.value.device in objects
      modifies this`inHand, dispatcherThread, objects[inHand.value.device].deviceThread
      ensures Valid() && State() == Advance(old(State()), Forward)
      ensures inHand.None? && dispatcherThread.running.None?
      ensures dispatcherThread.buffer == old(dispatcherThread.buffer)
      ensures var r := old(inHand.value);
              forall n :: n in objects ==>
                var t := objects[n].deviceThread;
                && t.bufferPriority == old(t.bufferPriority) + (if n == r.device then [Call(r)] else [])
                && t.buffer == old(t.buffer) && t.running == old(t.running) && t.terminate == old(t.terminate)
                && t.stopped == old(t.stopped)
    {
      hide W.Step;
      var r := inHand.value;
      var thread := objects[r.device].deviceThread;
      thread.PushFront(Call(r));
      dispatcherThread.FinishJob();
      inHand := None;
      assert thread.State() == W.Step(old(thread.State()), Push(true, Call(r)));
      forall n | n in objects && n != r.device
        ensures objects[n].deviceThread.State() == old(objects[n].deviceThread.State())
      {
        assert objects[n].deviceThread != thread;
      }
      ghost var s := old(State());
      assert s.Device(r.device) == old(thread.State());
      assert Devices() == s.devices[r.device := thread.State()];
    }

    /** A name in use is an error; an unknown type is skipped.  The calls under way do not notice a new object. */
    method AddObject(types: set<string>, typeName: string, name: string) returns (r: Added)
      requires Valid()
      modifies this`objects
      ensures Valid()
      ensures r.NotUnique? <==> name in old(objects)
      ensures r.UnknownType? <==> name !in old(objects) && typeName !in types
      ensures r.AddedObject? ==> objects == old(objects)[name := r.obj] && fresh(r.obj) && r.obj.name == name
      ensures !r.AddedObject? ==> objects == old(objects)
      ensures forall d :: State().Device(d) == old(State()).Device(d)
      ensures State() == old(State()).(devices := State().devices)
    {
      if name in objects {
        return NotUnique;
      }
      if typeName !in types {
        return UnknownType;
      }
      var newObject := new DCSObject(name);
      objects := objects[name := newObject];
      r := AddedObject(newObject);
    }
  }
}
